/** Base 64 encoding as `base64_encode` produces it (the alphabet and
    padding of RFC 4648, section 4) and decoding as the lenient
    `base64_decode` performs it: characters outside the alphabet, `=`
    included, are skipped, and a final group of one character yields no
    byte. */
module Base64 {
  import opened PhpStrings

  /** A string whose characters all stand for bytes. */
  predicate IsByteString(s: string)
  {
    forall i :: 0 <= i < |s| ==> s[i] as int < 256
  }

  /** A text as bytes: each character is taken modulo 256, so a text of
      bytes is left as it is. */
  function ToBytes(s: string): (r: string)
    ensures |r| == |s| && IsByteString(r)
    ensures IsByteString(s) ==> r == s
  {
    seq(|s|, i requires 0 <= i < |s| => (s[i] as int % 256) as char)
  }

  predicate IsAlphabetChar(c: char)
  {
    'A' <= c <= 'Z' || 'a' <= c <= 'z' || '0' <= c <= '9' || c == '+' || c == '/'
  }

  predicate IsPad(c: char)
  {
    c == '='
  }

  function DigitValue(c: char): (v: nat)
    requires IsAlphabetChar(c)
    ensures v < 64
  {
    if 'A' <= c <= 'Z' then c as int - 'A' as int
    else if 'a' <= c <= 'z' then c as int - 'a' as int + 26
    else if '0' <= c <= '9' then c as int - '0' as int + 52
    else if c == '+' then 62
    else 63
  }

  /** The character for a six-bit value; decoding it gives the value back. */
  function Digit(v: nat): (c: char)
    requires v < 64
    ensures IsAlphabetChar(c) && DigitValue(c) == v
  {
    if v < 26 then ('A' as int + v) as char
    else if v < 52 then ('a' as int + v - 26) as char
    else if v < 62 then ('0' as int + v - 52) as char
    else if v == 62 then '+'
    else '/'
  }

  /** The six-bit values of the encoding: four per group of three bytes,
      and two or three for a final group of one or two bytes. */
  function Sextets(s: string): (r: seq<nat>)
    requires IsByteString(s)
    ensures forall i :: 0 <= i < |r| ==> r[i] < 64
  {
    if |s| == 0 then []
    else if |s| == 1 then
      var b0 := s[0] as int;
      [b0 / 4, (b0 % 4) * 16]
    else if |s| == 2 then
      var b0, b1 := s[0] as int, s[1] as int;
      [b0 / 4, (b0 % 4) * 16 + b1 / 16, (b1 % 16) * 4]
    else
      var b0, b1, b2 := s[0] as int, s[1] as int, s[2] as int;
      [b0 / 4, (b0 % 4) * 16 + b1 / 16, (b1 % 16) * 4 + b2 / 64, b2 % 64] + Sextets(s[3..])
  }

  /** The characters for a sequence of six-bit values. */
  function Digits(vs: seq<nat>): (r: string)
    requires forall i :: 0 <= i < |vs| ==> vs[i] < 64
    ensures |r| == |vs|
    ensures forall i :: 0 <= i < |r| ==> IsAlphabetChar(r[i]) && DigitValue(r[i]) == vs[i]
  {
    if vs == [] then [] else [Digit(vs[0])] + Digits(vs[1..])
  }

  /** The values of a string of alphabet characters. */
  function Values(t: string): (r: seq<nat>)
    requires forall i :: 0 <= i < |t| ==> IsAlphabetChar(t[i])
    ensures |r| == |t|
    ensures forall i :: 0 <= i < |t| ==> r[i] == DigitValue(t[i]) < 64
  {
    if t == [] then [] else [DigitValue(t[0])] + Values(t[1..])
  }

  /** The encoding without its `=` padding. */
  function Unpadded(s: string): (r: string)
    requires IsByteString(s)
    ensures forall i :: 0 <= i < |r| ==> IsAlphabetChar(r[i])
  {
    Digits(Sextets(s))
  }

  /** `base64_encode`: a multiple of four characters, padded with `=`. */
  function Encode(s: string): (r: string)
    requires IsByteString(s)
  {
    Unpadded(s) + (if |s| % 3 == 1 then "==" else if |s| % 3 == 2 then "=" else "")
  }

  /** Joining six-bit values into bytes, four values to three bytes; a
      final lone value yields nothing. */
  function DecodeValues(vs: seq<nat>): (r: string)
    requires forall i :: 0 <= i < |vs| ==> vs[i] < 64
    ensures IsByteString(r)
  {
    if |vs| < 2 then ""
    else
      var c0 := (vs[0] * 4 + vs[1] / 16) as char;
      if |vs| == 2 then [c0]
      else
        var c1 := ((vs[1] % 16) * 16 + vs[2] / 4) as char;
        if |vs| == 3 then [c0, c1]
        else [c0, c1, ((vs[2] % 4) * 64 + vs[3]) as char] + DecodeValues(vs[4..])
  }

  /** Decoding a string made only of alphabet characters. */
  function DecodeDigits(t: string): string
    requires forall i :: 0 <= i < |t| ==> IsAlphabetChar(t[i])
  {
    DecodeValues(Values(t))
  }

  /** The alphabet characters of `t`, in order. */
  function Alphabetic(t: string): (r: string)
    ensures forall i :: 0 <= i < |r| ==> IsAlphabetChar(r[i])
    ensures (forall i :: 0 <= i < |t| ==> IsAlphabetChar(t[i])) ==> r == t
  {
    if t == [] then []
    else if IsAlphabetChar(t[0]) then [t[0]] + Alphabetic(t[1..])
    else Alphabetic(t[1..])
  }

  /** The lenient `base64_decode`. */
  function Decode(t: string): string
  {
    DecodeDigits(Alphabetic(t))
  }

  /** The bit arithmetic of one group: three bytes split into four six-bit
      values and joined again. */
  lemma GroupBits(v0: int, v1: int, v2: int, v3: int, b0: int, b1: int, b2: int)
    requires 0 <= b0 < 256 && 0 <= b1 < 256 && 0 <= b2 < 256
    requires v0 == b0 / 4 && v1 == (b0 % 4) * 16 + b1 / 16
    requires v2 == (b1 % 16) * 4 + b2 / 64 && v3 == b2 % 64
    ensures v0 * 4 + v1 / 16 == b0 && (v1 % 16) * 16 + v2 / 4 == b1 && (v2 % 4) * 64 + v3 == b2
  {
  }

  /** Joining the six-bit values of an encoding gives the bytes back. */
  lemma {:induction false} DecodeSextets(s: string)
    requires IsByteString(s)
    ensures DecodeValues(Sextets(s)) == s
    decreases |s|
  {
    if |s| >= 3 {
      var vs := Sextets(s);
      DecodeFirstGroup(s);
      assert vs[4..] == Sextets(s[3..]);
      DecodeSextets(s[3..]);
      assert s == s[..3] + s[3..];
    } else if |s| > 0 {
      DecodeLastGroup(s);
    }
  }

  lemma DecodeFirstGroup(s: string)
    requires IsByteString(s) && |s| >= 3
    ensures var vs := Sextets(s); DecodeValues(vs) == s[..3] + DecodeValues(vs[4..])
  {
    var b0, b1, b2 := s[0] as int, s[1] as int, s[2] as int;
    var vs := Sextets(s);
    SextetsHead(s);
    assert vs[0] == b0 / 4 && vs[1] == (b0 % 4) * 16 + b1 / 16;
    assert vs[2] == (b1 % 16) * 4 + b2 / 64 && vs[3] == b2 % 64;
    GroupBits(vs[0], vs[1], vs[2], vs[3], b0, b1, b2);
    JoinGroup(s, vs);
  }

  /** Four values that join into the first three bytes of `s`. */
  lemma JoinGroup(s: string, vs: seq<nat>)
    requires IsByteString(s) && |s| >= 3
    requires |vs| >= 4 && forall i :: 0 <= i < |vs| ==> vs[i] < 64
    requires vs[0] * 4 + vs[1] / 16 == s[0] as int
    requires (vs[1] % 16) * 16 + vs[2] / 4 == s[1] as int
    requires (vs[2] % 4) * 64 + vs[3] == s[2] as int
    ensures DecodeValues(vs) == s[..3] + DecodeValues(vs[4..])
  {
    DecodeValuesHead(vs);
  }

  lemma SextetsHead(s: string)
    requires IsByteString(s) && |s| >= 3
    ensures var b0, b1, b2 := s[0] as int, s[1] as int, s[2] as int;
      Sextets(s)[..4] == [b0 / 4, (b0 % 4) * 16 + b1 / 16, (b1 % 16) * 4 + b2 / 64, b2 % 64]
  {
  }

  lemma DecodeValuesHead(vs: seq<nat>)
    requires |vs| >= 4 && forall i :: 0 <= i < |vs| ==> vs[i] < 64
    ensures DecodeValues(vs) ==
      [(vs[0] * 4 + vs[1] / 16) as char, ((vs[1] % 16) * 16 + vs[2] / 4) as char,
       ((vs[2] % 4) * 64 + vs[3]) as char] + DecodeValues(vs[4..])
  {
  }

  lemma DecodeLastGroup(s: string)
    requires IsByteString(s) && 0 < |s| < 3
    ensures DecodeValues(Sextets(s)) == s
  {
    var b0 := s[0] as int;
    if |s| == 1 {
      GroupBits(b0 / 4, (b0 % 4) * 16, 0, 0, b0, 0, 0);
      JoinPair(s, Sextets(s));
    } else {
      var b1 := s[1] as int;
      GroupBits(b0 / 4, (b0 % 4) * 16 + b1 / 16, (b1 % 16) * 4, 0, b0, b1, 0);
      JoinTriple(s, Sextets(s));
    }
  }

  lemma JoinPair(s: string, vs: seq<nat>)
    requires |s| == 1 && |vs| == 2 && vs[0] < 64 && vs[1] < 64
    requires vs[0] * 4 + vs[1] / 16 == s[0] as int
    ensures DecodeValues(vs) == s
  {
  }

  lemma JoinTriple(s: string, vs: seq<nat>)
    requires |s| == 2 && |vs| == 3 && vs[0] < 64 && vs[1] < 64 && vs[2] < 64
    requires vs[0] * 4 + vs[1] / 16 == s[0] as int
    requires (vs[1] % 16) * 16 + vs[2] / 4 == s[1] as int
    ensures DecodeValues(vs) == s
  {
  }

  lemma ValuesOfDigits(vs: seq<nat>)
    requires forall i :: 0 <= i < |vs| ==> vs[i] < 64
    ensures Values(Digits(vs)) == vs
  {
  }

  /** Decoding undoes encoding, without padding. */
  lemma DecodeUnpadded(s: string)
    requires IsByteString(s)
    ensures DecodeDigits(Unpadded(s)) == s
  {
    ValuesOfDigits(Sextets(s));
    DecodeSextets(s);
  }

  /** Right-trimming `=` removes a padding that follows text not ending in `=`. */
  lemma {:induction false} TrimPadding(u: string, pad: string)
    requires forall i :: 0 <= i < |pad| ==> IsPad(pad[i])
    requires u == [] || !IsPad(u[|u| - 1])
    ensures RTrimBy(u + pad, IsPad) == u
    decreases |pad|
  {
    if pad == [] {
      assert u + pad == u;
    } else {
      var x := u + pad;
      assert x[..|x| - 1] == u + pad[..|pad| - 1];
      TrimPadding(u, pad[..|pad| - 1]);
    }
  }

  /** Right-trimming `=` from an encoding removes exactly the padding. */
  lemma StripPadding(s: string)
    requires IsByteString(s)
    ensures RTrimBy(Encode(s), IsPad) == Unpadded(s)
  {
    var u := Unpadded(s);
    TrimPadding(u, if |s| % 3 == 1 then "==" else if |s| % 3 == 2 then "=" else "");
  }

  /** The round trip the shield codec relies on: the byte string comes
      back from its encoding with the padding stripped. */
  lemma RoundTrip(s: string)
    requires IsByteString(s)
    ensures Decode(RTrimBy(Encode(s), IsPad)) == s
  {
    StripPadding(s);
    DecodeUnpadded(s);
  }
}
