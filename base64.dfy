/** The browser's `btoa`: base64 encoding (RFC 4648, section 4) of a string
    whose characters all lie in Latin-1, each character standing for one
    byte. A character above U+00FF makes `btoa` throw InvalidCharacterError,
    modelled as `None`. The API stores `btoa(password)` as a user's password
    and compares encodings at login, so what matters is that the encoding is
    injective; it is proved below from a decoder and the round trip. */
module Base64 {
  import opened Common

  /** `btoa` accepts exactly the strings whose characters are all below 256. */
  predicate IsLatin1(s: string) {
    forall i :: 0 <= i < |s| ==> s[i] as int < 256
  }

  /** Table 1 of RFC 4648, section 4: the alphabet character for a 6-bit value. */
  function Sextet(k: int): (c: char)
    requires 0 <= k < 64
    ensures c != '='
  {
    if k < 26 then ('A' as int + k) as char
    else if k < 52 then ('a' as int + (k - 26)) as char
    else if k < 62 then ('0' as int + (k - 52)) as char
    else if k == 62 then '+'
    else '/'
  }

  /** The 6-bit value of an alphabet character; any other character reads as 0. */
  function SextetValue(c: char): (k: int)
    ensures 0 <= k < 64
  {
    if 'A' <= c <= 'Z' then c as int - 'A' as int
    else if 'a' <= c <= 'z' then c as int - 'a' as int + 26
    else if '0' <= c <= '9' then c as int - '0' as int + 52
    else if c == '+' then 62
    else if c == '/' then 63
    else 0
  }

  lemma SextetRoundTrip(k: int)
    requires 0 <= k < 64
    ensures SextetValue(Sextet(k)) == k
  {
  }

  /** Three bytes become four alphabet characters, most significant bits first. */
  function EncodeGroup(b0: int, b1: int, b2: int): (r: string)
    requires 0 <= b0 < 256 && 0 <= b1 < 256 && 0 <= b2 < 256
  {
    [Sextet(b0 / 4), Sextet(b0 % 4 * 16 + b1 / 16), Sextet(b1 % 16 * 4 + b2 / 64), Sextet(b2 % 64)]
  }

  /** Base64 of a Latin-1 string: whole groups of three bytes, then a final
      group of one or two bytes padded with `=`. */
  function EncodeLatin1(s: string): (r: string)
    requires IsLatin1(s)
    ensures |r| == 4 * ((|s| + 2) / 3)
    decreases |s|
  {
    if |s| == 0 then ""
    else if |s| == 1 then
      [Sextet(s[0] as int / 4), Sextet(s[0] as int % 4 * 16), '=', '=']
    else if |s| == 2 then
      [Sextet(s[0] as int / 4), Sextet(s[0] as int % 4 * 16 + s[1] as int / 16), Sextet(s[1] as int % 16 * 4), '=']
    else
      EncodeGroup(s[0] as int, s[1] as int, s[2] as int) + EncodeLatin1(s[3..])
  }

  /** `btoa(s)`: the encoding, or `None` where the browser throws. */
  function Btoa(s: string): (r: Option<string>)
    ensures r.Some? <==> IsLatin1(s)
  {
    if IsLatin1(s) then Some(EncodeLatin1(s)) else None
  }

  /** `atob` on well-formed input: four characters give three bytes, fewer
      when the group ends in padding. */
  function Atob(t: string): (s: string)
    decreases |t|
  {
    if |t| < 4 then ""
    else
      var k0, k1, k2, k3 := SextetValue(t[0]), SextetValue(t[1]), SextetValue(t[2]), SextetValue(t[3]);
      var c0 := (k0 * 4 + k1 / 16) as char;
      var c1 := (k1 % 16 * 16 + k2 / 4) as char;
      var c2 := (k2 % 4 * 64 + k3) as char;
      if |t| == 4 && t[2] == '=' then [c0]
      else if |t| == 4 && t[3] == '=' then [c0, c1]
      else [c0, c1, c2] + Atob(t[4..])
  }

  /** Splitting a byte into its top six and bottom two bits, or its top four
      and bottom four, or its top two and bottom six, and joining them again
      gives the byte back. */
  lemma RegroupBits(b0: int, b1: int, b2: int)
    requires 0 <= b0 < 256 && 0 <= b1 < 256 && 0 <= b2 < 256
    ensures b0 / 4 * 4 + (b0 % 4 * 16 + b1 / 16) / 16 == b0
    ensures (b0 % 4 * 16 + b1 / 16) % 16 * 16 + (b1 % 16 * 4 + b2 / 64) / 4 == b1
    ensures (b1 % 16 * 4 + b2 / 64) % 4 * 64 + b2 % 64 == b2
  {
  }

  /** Decoding one full group gives its three bytes back and continues after it. */
  lemma AtobGroup(b0: int, b1: int, b2: int, rest: string)
    requires 0 <= b0 < 256 && 0 <= b1 < 256 && 0 <= b2 < 256
    ensures Atob(EncodeGroup(b0, b1, b2) + rest) == [b0 as char, b1 as char, b2 as char] + Atob(rest)
  {
    var g := EncodeGroup(b0, b1, b2);
    var t := g + rest;
    RegroupBits(b0, b1, b2);
    SextetRoundTrip(b0 / 4);
    SextetRoundTrip(b0 % 4 * 16 + b1 / 16);
    SextetRoundTrip(b1 % 16 * 4 + b2 / 64);
    SextetRoundTrip(b2 % 64);
    assert t[..4] == g && t[4..] == rest;
    assert t[3] == Sextet(b2 % 64) != '=';
  }

  /** Decoding a final group padded to one byte. */
  lemma AtobOne(b0: int)
    requires 0 <= b0 < 256
    ensures Atob([Sextet(b0 / 4), Sextet(b0 % 4 * 16), '=', '=']) == [b0 as char]
  {
    RegroupBits(b0, 0, 0);
    SextetRoundTrip(b0 / 4);
    SextetRoundTrip(b0 % 4 * 16);
  }

  /** Decoding a final group padded to two bytes. */
  lemma AtobTwo(b0: int, b1: int)
    requires 0 <= b0 < 256 && 0 <= b1 < 256
    ensures Atob([Sextet(b0 / 4), Sextet(b0 % 4 * 16 + b1 / 16), Sextet(b1 % 16 * 4), '=']) == [b0 as char, b1 as char]
  {
    RegroupBits(b0, b1, 0);
    SextetRoundTrip(b0 / 4);
    SextetRoundTrip(b0 % 4 * 16 + b1 / 16);
    SextetRoundTrip(b1 % 16 * 4);
  }

  lemma AtobBtoaOne(s: string)
    requires IsLatin1(s) && |s| == 1
    ensures Atob(EncodeLatin1(s)) == s
  {
    var b0 := s[0] as int;
    assert EncodeLatin1(s) == [Sextet(b0 / 4), Sextet(b0 % 4 * 16), '=', '='];
    AtobOne(b0);
  }

  lemma AtobBtoaTwo(s: string)
    requires IsLatin1(s) && |s| == 2
    ensures Atob(EncodeLatin1(s)) == s
  {
    var b0, b1 := s[0] as int, s[1] as int;
    assert EncodeLatin1(s) == [Sextet(b0 / 4), Sextet(b0 % 4 * 16 + b1 / 16), Sextet(b1 % 16 * 4), '='];
    AtobTwo(b0, b1);
  }

  /** `atob(btoa(s)) == s` for every string `btoa` accepts. */
  lemma {:induction false} AtobBtoa(s: string)
    requires IsLatin1(s)
    ensures Atob(EncodeLatin1(s)) == s
    decreases |s|
  {
    if |s| == 0 {
    } else if |s| == 1 {
      AtobBtoaOne(s);
    } else if |s| == 2 {
      AtobBtoaTwo(s);
    } else {
      var b0, b1, b2 := s[0] as int, s[1] as int, s[2] as int;
      var rest := s[3..];
      assert IsLatin1(rest);
      assert EncodeLatin1(s) == EncodeGroup(b0, b1, b2) + EncodeLatin1(rest);
      AtobGroup(b0, b1, b2, EncodeLatin1(rest));
      AtobBtoa(rest);
      assert s == [b0 as char, b1 as char, b2 as char] + rest;
    }
  }

  /** Distinct passwords never share an encoding. */
  lemma BtoaInjective(a: string, b: string)
    requires Btoa(a).Some? && Btoa(a) == Btoa(b)
    ensures a == b
  {
    AtobBtoa(a);
    AtobBtoa(b);
  }
}
