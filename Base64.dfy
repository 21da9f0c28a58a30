/**
  Base64 as the browser provides it: `btoa` encodes a binary string with the
  standard alphabet and `=` padding of section 4 of RFC 4648, and `atob`
  decodes with the forgiving-base64 decode of the WHATWG Infra standard
  (ASCII white space is dropped, one or two trailing `=` are dropped when the
  length is a multiple of four, a length of 1 modulo 4 or a character outside
  the alphabet is a failure, leftover bits are discarded). A binary string is
  a string whose characters all have codes below 256, one per byte.
*/
module Base64 {
  import opened Wrappers

  /** One byte, as stored in an `ArrayBuffer` or `Uint8Array`. */
  type byte = x: int | 0 <= x < 256

  /** One Base64 digit value. */
  type sextet = x: int | 0 <= x < 64

  predicate IsAlphabetChar(c: char) {
    ('A' <= c <= 'Z') || ('a' <= c <= 'z') || ('0' <= c <= '9') || c == '+' || c == '/'
  }

  /** The value of one alphabet character (table 1 of RFC 4648). */
  function ValueOf(c: char): (v: int)
    requires IsAlphabetChar(c)
    ensures 0 <= v < 64
  {
    if 'A' <= c <= 'Z' then c as int - 'A' as int
    else if 'a' <= c <= 'z' then c as int - 'a' as int + 26
    else if '0' <= c <= '9' then c as int - '0' as int + 52
    else if c == '+' then 62
    else 63
  }

  /** The alphabet character of one value; `ValueOf` is its inverse. */
  function CharOf(v: sextet): (c: char)
    ensures IsAlphabetChar(c) && ValueOf(c) == v
  {
    if v < 26 then ('A' as int + v) as char
    else if v < 52 then ('a' as int + (v - 26)) as char
    else if v < 62 then ('0' as int + (v - 52)) as char
    else if v == 62 then '+'
    else '/'
  }

  /** The encoding of `b` without its padding: four characters per three bytes, two or three for a final one or two. */
  function EncodeUnpadded(b: seq<byte>): (s: string)
    ensures forall i :: 0 <= i < |s| ==> IsAlphabetChar(s[i])
  {
    if |b| == 0 then ""
    else if |b| == 1 then [CharOf(b[0] / 4), CharOf(b[0] % 4 * 16)]
    else if |b| == 2 then [CharOf(b[0] / 4), CharOf(b[0] % 4 * 16 + b[1] / 16), CharOf(b[1] % 16 * 4)]
    else
      [CharOf(b[0] / 4), CharOf(b[0] % 4 * 16 + b[1] / 16), CharOf(b[1] % 16 * 4 + b[2] / 64), CharOf(b[2] % 64)]
      + EncodeUnpadded(b[3..])
  }

  /** The `=` characters that complete the last group of four. */
  function Padding(n: nat): string {
    if n % 3 == 1 then "==" else if n % 3 == 2 then "=" else ""
  }

  /** The padded Base64 encoding of a byte sequence. */
  function Encode(b: seq<byte>): (s: string)
    ensures forall i :: 0 <= i < |s| ==> IsAlphabetChar(s[i]) || s[i] == '='
  {
    EncodeUnpadded(b) + Padding(|b|)
  }

  /** The binary string of a byte sequence: one character per byte, its code the byte's value. */
  function BinaryString(b: seq<byte>): (s: string)
    ensures |s| == |b|
    ensures forall i :: 0 <= i < |b| ==> s[i] as int == b[i]
  {
    seq(|b|, i requires 0 <= i < |b| => b[i] as char)
  }

  lemma BinaryStringConcat(a: seq<byte>, b: seq<byte>)
    ensures BinaryString(a + b) == BinaryString(a) + BinaryString(b)
  {
  }

  /** Whether every character of `s` is a byte, as `btoa` demands. */
  predicate IsBinaryString(s: string) {
    forall i :: 0 <= i < |s| ==> s[i] as int < 256
  }

  /**
    The bytes a `Uint8Array` holds after `bytes[i] = s.charCodeAt(i)` for every
    index: the assignment keeps the code modulo 256.
  */
  function CharCodes(s: string): (b: seq<byte>)
    ensures |b| == |s|
    ensures IsBinaryString(s) ==> forall i :: 0 <= i < |s| ==> b[i] == s[i] as int
  {
    seq(|s|, i requires 0 <= i < |s| => (s[i] as int) % 256)
  }

  /** Reading the codes back gives the bytes a binary string was made from, and conversely. */
  lemma CharCodesBinaryString(b: seq<byte>, s: string)
    ensures CharCodes(BinaryString(b)) == b
    ensures IsBinaryString(s) ==> BinaryString(CharCodes(s)) == s
  {
    assert forall i :: 0 <= i < |b| ==> CharCodes(BinaryString(b))[i] == b[i];
    if IsBinaryString(s) {
      assert forall i :: 0 <= i < |s| ==> BinaryString(CharCodes(s))[i] as int == s[i] as int;
    }
  }

  /** `btoa(s)`: fails (throws InvalidCharacterError) when a character is not a byte. */
  function Btoa(s: string): (r: Option<string>)
    ensures r.Some? <==> IsBinaryString(s)
  {
    if IsBinaryString(s) then Some(Encode(CharCodes(s))) else None
  }

  /** The ASCII white space that forgiving-base64 decoding drops: tab, line feed, form feed, carriage return, space. */
  predicate IsAsciiWhitespace(c: char) {
    c == '\t' || c == '\n' || c as int == 0x0C || c == '\r' || c == ' '
  }

  function RemoveAsciiWhitespace(s: string): (r: string)
    ensures |r| <= |s|
    ensures forall i :: 0 <= i < |r| ==> !IsAsciiWhitespace(r[i])
  {
    if |s| == 0 then ""
    else if IsAsciiWhitespace(s[0]) then RemoveAsciiWhitespace(s[1..])
    else [s[0]] + RemoveAsciiWhitespace(s[1..])
  }

  lemma {:induction false} RemoveAsciiWhitespaceNone(s: string)
    requires forall i :: 0 <= i < |s| ==> !IsAsciiWhitespace(s[i])
    ensures RemoveAsciiWhitespace(s) == s
  {
    if |s| > 0 {
      RemoveAsciiWhitespaceNone(s[1..]);
    }
  }

  /** Drops two trailing `=` if there are two, else one if there is one. */
  function StripPadding(s: string): string {
    if |s| >= 2 && s[|s| - 2..] == "==" then s[..|s| - 2]
    else if |s| >= 1 && s[|s| - 1] == '=' then s[..|s| - 1]
    else s
  }

  /** Decodes unpadded Base64 text: each group of four gives three bytes, a final two or three give one or two. */
  function DecodeUnpadded(s: string): (b: seq<byte>)
    requires forall i :: 0 <= i < |s| ==> IsAlphabetChar(s[i])
    requires |s| % 4 != 1
    decreases |s|
  {
    if |s| == 0 then []
    else if |s| == 2 then
      [ValueOf(s[0]) * 4 + ValueOf(s[1]) / 16]
    else if |s| == 3 then
      [ValueOf(s[0]) * 4 + ValueOf(s[1]) / 16, ValueOf(s[1]) % 16 * 16 + ValueOf(s[2]) / 4]
    else
      [ValueOf(s[0]) * 4 + ValueOf(s[1]) / 16,
       ValueOf(s[1]) % 16 * 16 + ValueOf(s[2]) / 4,
       ValueOf(s[2]) % 4 * 64 + ValueOf(s[3])]
      + DecodeUnpadded(s[4..])
  }

  /** `atob(s)`: the decoded binary string, or `None` where `atob` throws InvalidCharacterError. */
  function Atob(s: string): (r: Option<string>)
    ensures r.Some? ==> IsBinaryString(r.value)
  {
    var t := RemoveAsciiWhitespace(s);
    var u := if |t| % 4 == 0 then StripPadding(t) else t;
    if |u| % 4 == 1 then None
    else if !(forall i :: 0 <= i < |u| ==> IsAlphabetChar(u[i])) then None
    else Some(BinaryString(DecodeUnpadded(u)))
  }

  /**
    `atob(x)` for an `x` that may be `undefined` (an index past the end of a
    `split`): JavaScript converts `undefined` to the string "undefined".
  */
  function AtobOf(x: Option<string>): Option<string> {
    Atob(if x.Some? then x.value else "undefined")
  }

  /** "undefined" has nine characters, so it never decodes. */
  lemma AtobUndefinedFails()
    ensures AtobOf(None) == None
  {
    var s := "undefined";
    assert |s| == 9;
    assert forall i :: 0 <= i < |s| ==> !IsAsciiWhitespace(s[i]);
    RemoveAsciiWhitespaceNone(s);
    assert RemoveAsciiWhitespace(s) == s;
    assert |s| % 4 == 1;
  }

  /** One group of three bytes survives encoding and decoding. */
  lemma GroupRoundTrip(b0: byte, b1: byte, b2: byte)
    ensures (b0 / 4) * 4 + (b0 % 4 * 16 + b1 / 16) / 16 == b0
    ensures (b0 % 4 * 16 + b1 / 16) % 16 * 16 + (b1 % 16 * 4 + b2 / 64) / 4 == b1
    ensures (b1 % 16 * 4 + b2 / 64) % 4 * 64 + b2 % 64 == b2
    ensures (b1 % 16 * 4) / 4 == b1 % 16
  {
    assert b1 / 16 < 16;
    assert (b0 % 4 * 16 + b1 / 16) / 16 == b0 % 4;
    assert (b0 % 4 * 16 + b1 / 16) % 16 == b1 / 16;
    assert b2 / 64 < 4;
    assert (b1 % 16 * 4 + b2 / 64) / 4 == b1 % 16;
    assert (b1 % 16 * 4 + b2 / 64) % 4 == b2 / 64;
  }

  /** The first three characters of a full group decode to the three bytes they encode. */
  lemma DecodeFullGroup(b: seq<byte>)
    requires |b| >= 3
    ensures var s := EncodeUnpadded(b);
      |s| >= 4 && s[4..] == EncodeUnpadded(b[3..])
      && ValueOf(s[0]) * 4 + ValueOf(s[1]) / 16 == b[0]
      && ValueOf(s[1]) % 16 * 16 + ValueOf(s[2]) / 4 == b[1]
      && ValueOf(s[2]) % 4 * 64 + ValueOf(s[3]) == b[2]
  {
    GroupRoundTrip(b[0], b[1], b[2]);
  }

  /** A final single byte decodes from the two characters it encodes to. */
  lemma DecodeOneByte(b0: byte)
    ensures DecodeUnpadded([CharOf(b0 / 4), CharOf(b0 % 4 * 16)]) == [b0]
  {
    var s := [CharOf(b0 / 4), CharOf(b0 % 4 * 16)];
    var v0, v1 := ValueOf(s[0]), ValueOf(s[1]);
    assert v0 == b0 / 4 && v1 == b0 % 4 * 16;
    assert v0 * 4 + v1 / 16 == b0;
  }

  /** A final two bytes decode from the three characters they encode to. */
  lemma DecodeTwoBytes(b0: byte, b1: byte)
    ensures DecodeUnpadded([CharOf(b0 / 4), CharOf(b0 % 4 * 16 + b1 / 16), CharOf(b1 % 16 * 4)]) == [b0, b1]
  {
    var s := [CharOf(b0 / 4), CharOf(b0 % 4 * 16 + b1 / 16), CharOf(b1 % 16 * 4)];
    var v0, v1, v2 := ValueOf(s[0]), ValueOf(s[1]), ValueOf(s[2]);
    assert v0 == b0 / 4 && v1 == b0 % 4 * 16 + b1 / 16 && v2 == b1 % 16 * 4;
    GroupRoundTrip(b0, b1, 0);
    assert v0 * 4 + v1 / 16 == b0;
    assert v1 % 16 * 16 + v2 / 4 == b1;
  }

  /** A full group in front of a correctly decoding rest decodes to its three bytes in front of the rest. */
  lemma DecodeFullGroupThenRest(b: seq<byte>)
    requires |b| >= 3
    requires |EncodeUnpadded(b[3..])| % 4 != 1
    requires DecodeUnpadded(EncodeUnpadded(b[3..])) == b[3..]
    ensures |EncodeUnpadded(b)| % 4 != 1
    ensures DecodeUnpadded(EncodeUnpadded(b)) == b
  {
    var s := EncodeUnpadded(b);
    DecodeFullGroup(b);
    var n := |s[4..]|;
    assert |s| == n + 4;
    assert (n + 4) % 4 == n % 4;
    assert DecodeUnpadded(s) == [b[0], b[1], b[2]] + DecodeUnpadded(s[4..]);
    assert b == [b[0], b[1], b[2]] + b[3..];
  }

  /** Decoding undoes the unpadded encoding. */
  lemma {:induction false} DecodeEncodeUnpadded(b: seq<byte>)
    ensures |EncodeUnpadded(b)| % 4 != 1
    ensures DecodeUnpadded(EncodeUnpadded(b)) == b
  {
    if |b| == 1 {
      DecodeOneByte(b[0]);
    } else if |b| == 2 {
      DecodeTwoBytes(b[0], b[1]);
    } else if |b| >= 3 {
      DecodeEncodeUnpadded(b[3..]);
      DecodeFullGroupThenRest(b);
    }
  }

  /** Stripping the padding of an encoding leaves its unpadded form. */
  lemma StripPaddingOfEncode(b: seq<byte>)
    ensures StripPadding(Encode(b)) == EncodeUnpadded(b)
  {
    var u := EncodeUnpadded(b);
    var s := Encode(b);
    if |b| % 3 == 1 {
      assert s[|s| - 2..] == "==";
      assert s[..|s| - 2] == u;
    } else if |b| % 3 == 2 {
      assert |u| >= 3 && s[|s| - 2] == u[|u| - 1];
      assert s[|s| - 1] == '=';
      assert s[..|s| - 1] == u;
    } else {
      assert s == u;
      if |u| >= 1 {
        assert IsAlphabetChar(u[|u| - 1]);
      }
    }
  }

  /** A full group of three bytes becomes four characters, and the padding is that of the rest. */
  lemma EncodeStep(b: seq<byte>)
    requires |b| >= 3
    ensures |Encode(b)| == 4 + |Encode(b[3..])|
  {
    EncodeUnpaddedStep(b);
    assert Padding(|b|) == Padding(|b| - 3);
    assert |Encode(b)| == |EncodeUnpadded(b)| + |Padding(|b|)|;
  }

  lemma EncodeUnpaddedStep(b: seq<byte>)
    requires |b| >= 3
    ensures |EncodeUnpadded(b)| == 4 + |EncodeUnpadded(b[3..])|
  {
  }

  /** Fewer than three bytes: nothing, or one padded group of four. */
  lemma EncodeShort(b: seq<byte>)
    requires |b| < 3
    ensures |Encode(b)| == if |b| == 0 then 0 else 4
  {
  }

  /** Padding completes the last group: an encoding's length is a multiple of four. */
  lemma {:induction false} EncodeLength(b: seq<byte>)
    ensures |Encode(b)| % 4 == 0
  {
    if |b| >= 3 {
      EncodeLength(b[3..]);
      EncodeStep(b);
      var n := |Encode(b[3..])|;
      assert n % 4 == 0 && |Encode(b)| == n + 4;
      assert (n + 4) % 4 == n % 4;
    } else {
      EncodeShort(b);
    }
  }

  /** `atob(btoa(s))` gives back the binary string of the bytes: the Base64 round trip. */
  lemma AtobEncode(b: seq<byte>)
    ensures Atob(Encode(b)) == Some(BinaryString(b))
  {
    var s := Encode(b);
    assert forall i :: 0 <= i < |s| ==> !IsAsciiWhitespace(s[i]);
    RemoveAsciiWhitespaceNone(s);
    EncodeLength(b);
    StripPaddingOfEncode(b);
    DecodeEncodeUnpadded(b);
    var u := EncodeUnpadded(b);
    assert RemoveAsciiWhitespace(s) == s && StripPadding(s) == u;
    assert |u| % 4 != 1 && forall i :: 0 <= i < |u| ==> IsAlphabetChar(u[i]);
  }

  /** `atob(btoa(s)) == s` for every binary string. */
  lemma AtobBtoa(s: string)
    requires IsBinaryString(s)
    ensures Btoa(s).Some? && Atob(Btoa(s).value) == Some(s)
  {
    AtobEncode(CharCodes(s));
    CharCodesBinaryString([], s);
  }

  /** No character of an encoding is the comma that separates a data URI's header from its data. */
  lemma EncodeHasNoComma(b: seq<byte>)
    ensures ',' !in Encode(b)
  {
  }

  /**
    The loop `for (i = 0; i < s.length; i++) bytes[i] = s.charCodeAt(i)` that
    fills a fresh `Uint8Array` from a decoded binary string.
  */
  method CharCodesToBytes(s: string) returns (bytes: array<byte>)
    ensures bytes[..] == CharCodes(s)
  {
    bytes := new byte[|s|];
    var i := 0;
    while i < |s|
      invariant 0 <= i <= |s|
      invariant forall k :: 0 <= k < i ==> bytes[k] == (s[k] as int) % 256
    {
      bytes[i] := (s[i] as int) % 256;
      i := i + 1;
    }
  }
}
