/** Base 64 encoding as the browser's `btoa` produces it (section 4 of RFC 4648:
    the standard alphabet, `=` padding), and decoding as the browser's `atob`
    performs it (the WHATWG "forgiving-base64 decode": ASCII whitespace is
    ignored, padding is optional, and malformed input is a failure). */
module Base64 {
  import opened Wrappers
  import Bytes

  const PadChar: char := '='

  /** A 6-bit group, the unit that one alphabet character stands for. */
  type Sextet = v: bv8 | v < 64

  /** The character that encodes sextet `v`: Table 1 of RFC 4648, values 0-25 to
      `A`-`Z`, 26-51 to `a`-`z`, 52-61 to `0`-`9`, 62 to `+` and 63 to `/`. */
  function SextetChar(v: Sextet): (c: char)
  {
    var n := v as int;
    if n < 26 then ('A' as int + n) as char
    else if n < 52 then ('a' as int + (n - 26)) as char
    else if n < 62 then ('0' as int + (n - 52)) as char
    else if v == 62 then '+'
    else '/'
  }

  /** The sextet a character stands for, if it belongs to the alphabet. */
  function SextetValue(c: char): (r: Option<Sextet>)
  {
    if 'A' <= c <= 'Z' then Some((c as int - 'A' as int) as bv8)
    else if 'a' <= c <= 'z' then Some((c as int - 'a' as int + 26) as bv8)
    else if '0' <= c <= '9' then Some((c as int - '0' as int + 52) as bv8)
    else if c == '+' then Some(62)
    else if c == '/' then Some(63)
    else None
  }

  lemma SextetValueInvertsChar(v: Sextet)
    ensures SextetValue(SextetChar(v)) == Some(v)
    ensures SextetChar(v) != PadChar
  {
    if v < 26 {
      UpperInverts(v);
    } else if v < 52 {
      LowerInverts(v);
    } else if v < 62 {
      DigitInverts(v);
    }
  }

  lemma UpperInverts(v: Sextet)
    requires v < 26
    ensures SextetValue(SextetChar(v)) == Some(v) && SextetChar(v) != PadChar
  {
    Bytes.ByteIntRoundTrip(v);
    assert SextetChar(v) as int == 'A' as int + v as int;
  }

  lemma LowerInverts(v: Sextet)
    requires 26 <= v < 52
    ensures SextetValue(SextetChar(v)) == Some(v) && SextetChar(v) != PadChar
  {
    Bytes.ByteIntRoundTrip(v);
    assert SextetChar(v) as int == 'a' as int + v as int - 26;
  }

  lemma DigitInverts(v: Sextet)
    requires 52 <= v < 62
    ensures SextetValue(SextetChar(v)) == Some(v) && SextetChar(v) != PadChar
  {
    Bytes.ByteIntRoundTrip(v);
    assert SextetChar(v) as int == '0' as int + v as int - 52;
  }

  lemma SextetCharInvertsValue(c: char)
    requires SextetValue(c).Some?
    ensures SextetChar(SextetValue(c).value) == c
  {
    var n := if 'A' <= c <= 'Z' then c as int - 'A' as int
      else if 'a' <= c <= 'z' then c as int - 'a' as int + 26
      else if '0' <= c <= '9' then c as int - '0' as int + 52
      else if c == '+' then 62 else 63;
    Bytes.IntByteRoundTrip(n);
    assert SextetValue(c).value as int == n;
  }

  /** Splits bytes into 24-bit groups; a final group of one or two bytes is
      padded with zero bits to two or three sextets (section 4 of RFC 4648). */
  function ToSextets(b: seq<bv8>): (v: seq<Sextet>)
    decreases |b|
  {
    if |b| == 0 then []
    else if |b| == 1 then SplitGroup(b[0], 0, 0)[..2]
    else if |b| == 2 then SplitGroup(b[0], b[1], 0)[..3]
    else SplitGroup(b[0], b[1], b[2]) + ToSextets(b[3..])
  }

  /** The four sextets of the 24-bit group `b0 b1 b2`, most significant first. */
  function SplitGroup(b0: bv8, b1: bv8, b2: bv8): (v: seq<Sextet>)
    ensures |v| == 4
  {
    [b0 >> 2, ((b0 & 3) << 4) | (b1 >> 4), ((b1 & 15) << 2) | (b2 >> 6), b2 & 63]
  }

  /** The three bytes of the 24-bit group made of four sextets. */
  function JoinGroup(v0: Sextet, v1: Sextet, v2: Sextet, v3: Sextet): (b: seq<bv8>)
    ensures |b| == 3
  {
    [(v0 << 2) | (v1 >> 4), ((v1 & 15) << 4) | (v2 >> 2), ((v2 & 3) << 6) | v3]
  }

  function Chars(v: seq<Sextet>): (s: string)
  {
    seq(|v|, i requires 0 <= i < |v| => SextetChar(v[i]))
  }

  /** The `=` characters that complete the final quantum: none after a full
      group, two after a single byte, one after two bytes. */
  function Padding(byteCount: nat): (p: string)
  {
    if byteCount % 3 == 1 then "==" else if byteCount % 3 == 2 then "=" else ""
  }

  /** The base 64 encoding of `b` (what `btoa` returns for the binary string of `b`). */
  function Encode(b: seq<bv8>): (s: string)
    ensures |s| % 4 == 0
  {
    QuantumLength(b);
    Chars(ToSextets(b)) + Padding(|b|)
  }

  /** Reassembles bytes from sextets: every four sextets give three bytes, and a
      final group of three (two) sextets gives two bytes (one byte), its low-order
      leftover bits discarded. A single leftover sextet is not a valid input. */
  function FromSextets(v: seq<Sextet>): (b: seq<bv8>)
    requires |v| % 4 != 1
    ensures |b| <= |v|
    decreases |v|
  {
    if |v| == 0 then []
    else if |v| == 2 then JoinGroup(v[0], v[1], 0, 0)[..1]
    else if |v| == 3 then JoinGroup(v[0], v[1], v[2], 0)[..2]
    else JoinGroup(v[0], v[1], v[2], v[3]) + FromSextets(v[4..])
  }

  /** ASCII whitespace as the WHATWG Infra standard defines it: TAB, LF, FF, CR, SPACE. */
  predicate IsAsciiWhitespace(c: char)
  {
    c == '\t' || c == '\n' || c as int == 0x0C || c == '\r' || c == ' '
  }

  function RemoveWhitespace(s: string): (t: string)
    ensures |t| <= |s|
  {
    if s == [] then []
    else if IsAsciiWhitespace(s[0]) then RemoveWhitespace(s[1..])
    else [s[0]] + RemoveWhitespace(s[1..])
  }

  /** When the length is a multiple of four, one or two trailing `=` are dropped. */
  function StripPadding(t: string): (u: string)
    ensures |u| <= |t|
  {
    if |t| % 4 != 0 || |t| == 0 || t[|t| - 1] != PadChar then t
    else if |t| >= 2 && t[|t| - 2] == PadChar then t[..|t| - 2]
    else t[..|t| - 1]
  }

  /** The sextets of `u`, or None when some character is outside the alphabet. */
  function Values(u: string): (r: Option<seq<Sextet>>)
    ensures r.Some? ==> |r.value| == |u|
  {
    if u == [] then Some([])
    else match (SextetValue(u[0]), Values(u[1..]))
      case (Some(x), Some(rest)) => Some([x] + rest)
      case _ => None
  }

  /** The bytes `atob` decodes from `s`, or None where `atob` throws. */
  function Decode(s: string): (r: Option<seq<bv8>>)
    ensures r.Some? ==> |r.value| <= |s|
  {
    var u := StripPadding(RemoveWhitespace(s));
    if |u| % 4 == 1 then None
    else match Values(u)
      case None => None
      case Some(v) => Some(FromSextets(v))
  }

  // ----- The browser's "binary string" built-ins. -----

  /** One character per byte, character i having code `b[i]`. */
  function BinaryString(b: seq<bv8>): (s: string)
  {
    seq(|b|, i requires 0 <= i < |b| => (b[i] as int) as char)
  }

  predicate IsBinaryString(s: string)
  {
    forall i :: 0 <= i < |s| ==> s[i] as int < 256
  }

  function BinaryBytes(s: string): (b: seq<bv8>)
    requires IsBinaryString(s)
  {
    seq(|s|, i requires 0 <= i < |s| => (s[i] as int) as bv8)
  }

  /** `btoa`: encodes a binary string; throws (None) on a character above U+00FF. */
  function Btoa(s: string): (r: Option<string>)
    ensures r.Some? ==> |r.value| % 4 == 0
    ensures s == [] ==> r == Some([])
  {
    if IsBinaryString(s) then Some(Encode(BinaryBytes(s))) else None
  }

  /** `atob`: decodes to a binary string; throws (None) on malformed input. */
  function Atob(s: string): (r: Option<string>)
    ensures r.Some? ==> IsBinaryString(r.value) && |r.value| <= |s|
  {
    match Decode(s)
    case None => None
    case Some(b) => BinaryStringRoundTrip(b); Some(BinaryString(b))
  }

  // ----- Properties. -----

  lemma {:induction false} SextetsLength(b: seq<bv8>)
    ensures |ToSextets(b)| == 4 * (|b| / 3) + (if |b| % 3 == 0 then 0 else |b| % 3 + 1)
    ensures |ToSextets(b)| % 4 != 1
    decreases |b|
  {
    if |b| >= 3 {
      SextetsLength(b[3..]);
    }
  }

  /** The length of an encoding is four characters per started group of three bytes. */
  lemma EncodeLength(b: seq<bv8>)
    ensures |Encode(b)| == 4 * ((|b| + 2) / 3)
    ensures Encode(b) == [] <==> b == []
  {
    SextetsLength(b);
  }

  /** The encoding uses only alphabet characters, followed by at most two `=`. */
  lemma EncodeAlphabet(b: seq<bv8>)
    ensures forall i :: 0 <= i < |Encode(b)| ==>
      SextetValue(Encode(b)[i]).Some? || (i >= |ToSextets(b)| && Encode(b)[i] == PadChar)
  {
    var v := ToSextets(b);
    forall i | 0 <= i < |Chars(v)| ensures SextetValue(Chars(v)[i]).Some? {
      SextetValueInvertsChar(v[i]);
    }
  }

  /** Joining the sextets of a group gives back its three bytes. */
  lemma GroupRoundTrip(b0: bv8, b1: bv8, b2: bv8)
    ensures var v := SplitGroup(b0, b1, b2);
      JoinGroup(v[0], v[1], v[2], v[3]) == [b0, b1, b2]
  {
  }

  lemma {:induction false} SextetsRoundTrip(b: seq<bv8>)
    ensures |ToSextets(b)| % 4 != 1
    ensures FromSextets(ToSextets(b)) == b
    decreases |b|
  {
    SextetsMod(b);
    if |b| == 1 {
      OneByteRoundTrip(b[0]);
      assert b == [b[0]];
    } else if |b| == 2 {
      TwoBytesRoundTrip(b[0], b[1]);
      assert b == [b[0], b[1]];
    } else if |b| >= 3 {
      SextetsRoundTrip(b[3..]);
      GroupThenRest(b);
    }
  }

  /** The residue clause of SextetsLength again, by an induction free of division:
      it is the form the round-trip proof calls, so that the solver never sees the
      division there. */
  lemma {:induction false} SextetsMod(b: seq<bv8>)
    ensures |ToSextets(b)| % 4 != 1
    decreases |b|
  {
    if |b| >= 3 {
      SextetsMod(b[3..]);
    }
  }

  /** One full group followed by the round trip of the rest. */
  lemma GroupThenRest(b: seq<bv8>)
    requires |b| >= 3
    requires |ToSextets(b[3..])| % 4 != 1 && FromSextets(ToSextets(b[3..])) == b[3..]
    ensures |ToSextets(b)| % 4 != 1 && FromSextets(ToSextets(b)) == b
  {
    var g := SplitGroup(b[0], b[1], b[2]);
    var rest := ToSextets(b[3..]);
    assert ToSextets(b) == g + rest;
    FromSextetsCons(g, rest);
    GroupRoundTrip(b[0], b[1], b[2]);
    assert b == [b[0], b[1], b[2]] + b[3..];
  }

  lemma FromSextetsCons(g: seq<Sextet>, rest: seq<Sextet>)
    requires |g| == 4 && |rest| % 4 != 1
    ensures |g + rest| % 4 != 1
    ensures FromSextets(g + rest) == JoinGroup(g[0], g[1], g[2], g[3]) + FromSextets(rest)
  {
    assert (g + rest)[4..] == rest;
  }

  lemma OneByteRoundTrip(b0: bv8)
    ensures FromSextets(ToSextets([b0])) == [b0]
  {
    GroupRoundTrip(b0, 0, 0);
    var g := SplitGroup(b0, 0, 0);
    assert g[3] == 0 && g[2] == 0;
    assert FromSextets(ToSextets([b0])) == JoinGroup(g[0], g[1], 0, 0)[..1];
  }

  lemma TwoBytesRoundTrip(b0: bv8, b1: bv8)
    ensures FromSextets(ToSextets([b0, b1])) == [b0, b1]
  {
    GroupRoundTrip(b0, b1, 0);
    var g := SplitGroup(b0, b1, 0);
    assert g[3] == 0;
    assert FromSextets(ToSextets([b0, b1])) == JoinGroup(g[0], g[1], g[2], 0)[..2];
  }

  lemma {:induction false} RemoveWhitespaceKeeps(s: string)
    requires forall i :: 0 <= i < |s| ==> !IsAsciiWhitespace(s[i])
    ensures RemoveWhitespace(s) == s
    decreases |s|
  {
    if s != [] {
      RemoveWhitespaceKeeps(s[1..]);
    }
  }

  lemma {:induction false} ValuesOfChars(v: seq<Sextet>)
    ensures Values(Chars(v)) == Some(v)
    decreases |v|
  {
    if v != [] {
      SextetValueInvertsChar(v[0]);
      assert Chars(v)[1..] == Chars(v[1..]);
      ValuesOfChars(v[1..]);
      assert v == [v[0]] + v[1..];
    }
  }

  lemma EncodeHasNoWhitespace(b: seq<bv8>)
    ensures RemoveWhitespace(Encode(b)) == Encode(b)
  {
    var v := ToSextets(b);
    var s := Encode(b);
    forall i | 0 <= i < |s| ensures !IsAsciiWhitespace(s[i]) {
      if i < |v| {
        SextetValueInvertsChar(v[i]);
        assert s[i] == SextetChar(v[i]);
      }
    }
    RemoveWhitespaceKeeps(s);
  }

  /** The padding rule of the decoder removes exactly the padding the encoder added. */
  lemma StripPaddingOfEncode(b: seq<bv8>)
    ensures StripPadding(Encode(b)) == Chars(ToSextets(b))
  {
    var v := ToSextets(b);
    QuantumLength(b);
    if |v| > 0 {
      SextetValueInvertsChar(v[|v| - 1]);
    }
    StripPaddingAfter(Chars(v), Padding(|b|));
  }

  /** The sextets and the padding fill whole quanta of four characters. */
  lemma {:induction false} QuantumLength(b: seq<bv8>)
    ensures (|ToSextets(b)| + |Padding(|b|)|) % 4 == 0
    ensures Padding(|b|) != "" ==> ToSextets(b) != []
    decreases |b|
  {
    if |b| >= 3 {
      QuantumLength(b[3..]);
      assert Padding(|b|) == Padding(|b[3..]|);
    }
  }

  lemma StripPaddingAfter(c: string, p: string)
    requires p == "" || p == "=" || p == "=="
    requires (|c| + |p|) % 4 == 0
    requires c != [] ==> c[|c| - 1] != PadChar
    requires p != "" ==> c != []
    ensures StripPadding(c + p) == c
  {
    var t := c + p;
    if p == "==" {
      assert t[|t| - 1] == PadChar && t[|t| - 2] == PadChar;
      assert t[..|t| - 2] == c;
    } else if p == "=" {
      assert t[|t| - 1] == PadChar && t[|t| - 2] == c[|c| - 1];
      assert t[..|t| - 1] == c;
    } else {
      assert t == c;
    }
  }

  /** Decoding an encoding gives back exactly the encoded bytes. */
  lemma RoundTrip(b: seq<bv8>)
    ensures Decode(Encode(b)) == Some(b)
  {
    var v := ToSextets(b);
    EncodeHasNoWhitespace(b);
    StripPaddingOfEncode(b);
    ValuesOfChars(v);
    SextetsRoundTrip(b);
  }

  /** The decoder is lenient: an unpadded string whose final sextet carries
      non-zero leftover bits is accepted, so distinct texts decode to the same
      bytes and re-encoding does not give back the text. */
  lemma DecodeIsLenient()
    ensures Decode("AB") == Some([0])
    ensures Decode("AA==") == Some([0])
    ensures Encode([0]) == "AA=="
  {
    DecodeUnpadded();
    DecodePadded();
    assert ToSextets([0]) == SplitGroup(0, 0, 0)[..2];
    assert Chars([0, 0]) == "AA";
  }

  lemma DecodeUnpadded()
    ensures Decode("AB") == Some([0])
  {
    assert "AB"[1..] == "B" && "B"[1..] == [];
    assert Chars([0, 1]) == "AB";
    ValuesOfChars([0, 1]);
    assert RemoveWhitespace("B") == "B";
    assert RemoveWhitespace("AB") == "AB";
    assert StripPadding("AB") == "AB";
    assert FromSextets([0, 1]) == JoinGroup(0, 1, 0, 0)[..1] == [0];
  }

  lemma DecodePadded()
    ensures Decode("AA==") == Some([0])
  {
    assert "AA=="[1..] == "A==" && "A=="[1..] == "==" && "=="[1..] == "=" && "="[1..] == [];
    assert Chars([0, 0]) == "AA";
    ValuesOfChars([0, 0]);
    assert RemoveWhitespace("=") == "=";
    assert RemoveWhitespace("==") == "==";
    assert RemoveWhitespace("A==") == "A==";
    assert RemoveWhitespace("AA==") == "AA==";
    assert StripPadding("AA==") == "AA";
    assert FromSextets([0, 0]) == JoinGroup(0, 0, 0, 0)[..1] == [0];
  }

  /** Section 3.5 of RFC 4648: the bits of the last sextet that carry no data
      (four after one leftover byte, two after two) are set to zero. */
  lemma {:induction false} SextetsPadBitsZero(b: seq<bv8>)
    ensures |b| % 3 == 1 ==> |ToSextets(b)| >= 2 && ToSextets(b)[|ToSextets(b)| - 1] & 15 == 0
    ensures |b| % 3 == 2 ==> |ToSextets(b)| >= 3 && ToSextets(b)[|ToSextets(b)| - 1] & 3 == 0
    decreases |b|
  {
    if |b| == 1 {
      OneBytePadBits(b[0]);
    } else if |b| == 2 {
      TwoBytesPadBits(b[0], b[1]);
    } else if |b| >= 3 {
      SextetsPadBitsZero(b[3..]);
      var rest := ToSextets(b[3..]);
      assert ToSextets(b) == SplitGroup(b[0], b[1], b[2]) + rest;
      if rest != [] {
        assert ToSextets(b)[|ToSextets(b)| - 1] == rest[|rest| - 1];
      }
    }
  }

  lemma OneBytePadBits(b0: bv8)
    ensures SplitGroup(b0, 0, 0)[1] & 15 == 0
  {
  }

  lemma TwoBytesPadBits(b0: bv8, b1: bv8)
    ensures SplitGroup(b0, b1, 0)[2] & 3 == 0
  {
  }

  /** The character before the padding of an encoding stands for a sextet whose
      unused low bits are zero, so the encoder never emits a text like "AB==". */
  lemma EncodePadBitsZero(b: seq<bv8>)
    ensures |b| % 3 == 1 ==> var k := |ToSextets(b)|;
      k >= 1 && SextetValue(Encode(b)[k - 1]).Some? && SextetValue(Encode(b)[k - 1]).value & 15 == 0
    ensures |b| % 3 == 2 ==> var k := |ToSextets(b)|;
      k >= 1 && SextetValue(Encode(b)[k - 1]).Some? && SextetValue(Encode(b)[k - 1]).value & 3 == 0
  {
    SextetsPadBitsZero(b);
    var v := ToSextets(b);
    if |b| % 3 != 0 {
      SextetValueInvertsChar(v[|v| - 1]);
      assert Encode(b)[|v| - 1] == SextetChar(v[|v| - 1]);
    }
  }

  // ----- What the decoder rejects. -----

  /** Values succeeds only on alphabet characters. */
  lemma {:induction false} ValuesAlphabet(u: string)
    requires Values(u).Some?
    ensures forall i :: 0 <= i < |u| ==> SextetValue(u[i]).Some?
    decreases |u|
  {
    if u != [] {
      ValuesAlphabet(u[1..]);
      assert forall i :: 1 <= i < |u| ==> u[i] == u[1..][i - 1];
    }
  }

  /** Removing whitespace keeps every other character. */
  lemma {:induction false} RemoveWhitespaceKeepsOthers(s: string)
    ensures forall i :: 0 <= i < |s| && !IsAsciiWhitespace(s[i]) ==> s[i] in RemoveWhitespace(s)
    decreases |s|
  {
    if s != [] {
      RemoveWhitespaceKeepsOthers(s[1..]);
      assert forall i :: 1 <= i < |s| ==> s[i] == s[1..][i - 1];
    }
  }

  /** Stripping padding keeps a prefix and drops only `=` characters. */
  lemma StripPaddingShape(t: string)
    ensures |StripPadding(t)| <= |t| && StripPadding(t) == t[..|StripPadding(t)|]
    ensures forall j :: |StripPadding(t)| <= j < |t| ==> t[j] == PadChar
  {
  }

  /** Text that atob accepts holds only alphabet characters, `=` and ASCII
      whitespace: any other character makes atob throw. */
  lemma DecodeAlphabet(s: string)
    ensures Decode(s).Some? ==>
      forall i :: 0 <= i < |s| ==> SextetValue(s[i]).Some? || s[i] == PadChar || IsAsciiWhitespace(s[i])
  {
    if Decode(s).Some? {
      var t := RemoveWhitespace(s);
      var u := StripPadding(t);
      ValuesAlphabet(u);
      RemoveWhitespaceKeepsOthers(s);
      StripPaddingShape(t);
      forall i | 0 <= i < |s| && !IsAsciiWhitespace(s[i])
        ensures SextetValue(s[i]).Some? || s[i] == PadChar
      {
        var j :| 0 <= j < |t| && t[j] == s[i];
        if j < |u| {
          assert u[j] == t[j];
        }
      }
    }
  }

  /** atob throws on a lone leftover character, on a character outside the
      alphabet, and on padding that does not close the text. */
  lemma DecodeRejects()
    ensures Decode("A") == None
    ensures Decode("AA*A") == None
    ensures Decode("A===") == None
  {
    RejectsLoneCharacter();
    RejectsForeignCharacter();
    RejectsInnerPadding();
  }

  lemma RejectsLoneCharacter()
    ensures Decode("A") == None
  {
    assert "A"[1..] == [];
    assert RemoveWhitespace("A") == "A";
  }

  lemma RejectsForeignCharacter()
    ensures Decode("AA*A") == None
  {
    var s := "AA*A";
    assert SextetValue(s[2]).None? && s[2] != PadChar && !IsAsciiWhitespace(s[2]);
    DecodeAlphabet(s);
  }

  lemma RejectsInnerPadding()
    ensures Decode("A===") == None
  {
    var t := "A===";
    RemoveWhitespaceKeeps(t);
    assert StripPadding(t) == "A=";
    assert "A="[1..] == "=" && "="[1..] == [];
    assert Values("=") == None;
  }

  lemma BinaryStringRoundTrip(b: seq<bv8>)
    ensures IsBinaryString(BinaryString(b)) && BinaryBytes(BinaryString(b)) == b
  {
  }

  /** `btoa` of a binary string never throws and gives the encoding of its bytes. */
  lemma BtoaOfBinaryString(b: seq<bv8>)
    ensures Btoa(BinaryString(b)) == Some(Encode(b))
  {
    BinaryStringRoundTrip(b);
  }
}
