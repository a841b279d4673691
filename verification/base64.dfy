/** The browser's `btoa` and `atob`: base64 of section 4 of RFC 4648 over
    "binary strings", whose characters are the octets 0-255. `atob` is the
    forgiving-base64 decode of the WHATWG Infra Standard. */
module Base64 {
  import opened Wrappers
  import opened Bytes

  /** The name of the DOMException `btoa` and `atob` throw. */
  const InvalidCharacterError := "InvalidCharacterError"

  /** The 64 characters of the base64 alphabet (Table 1 of RFC 4648). */
  predicate IsAlphabet(c: char) {
    'A' <= c <= 'Z' || 'a' <= c <= 'z' || '0' <= c <= '9' || c == '+' || c == '/'
  }

  predicate InAlphabet(t: string) {
    forall i :: 0 <= i < |t| ==> IsAlphabet(t[i])
  }

  /** The character that encodes the 6-bit value `v`. */
  function SextetChar(v: int): (c: char)
    requires 0 <= v < 64
    ensures IsAlphabet(c)
  {
    if v < 26 then ('A' as int + v) as char
    else if v < 52 then ('a' as int + v - 26) as char
    else if v < 62 then ('0' as int + v - 52) as char
    else if v == 62 then '+'
    else '/'
  }

  /** The 6-bit value an alphabet character encodes. */
  function SextetValue(c: char): (v: int)
    requires IsAlphabet(c)
    ensures 0 <= v < 64 && SextetChar(v) == c
  {
    if 'A' <= c <= 'Z' then c as int - 'A' as int
    else if 'a' <= c <= 'z' then c as int - 'a' as int + 26
    else if '0' <= c <= '9' then c as int - '0' as int + 52
    else if c == '+' then 62
    else 63
  }

  lemma SextetValueOfChar(v: int)
    requires 0 <= v < 64
    ensures SextetValue(SextetChar(v)) == v
  {
  }

  /** The four 6-bit values of a 24-bit group `b0 b1 b2`, most significant
      first. */
  function Sextet0(b0: byte): (v: int) ensures 0 <= v < 64 { b0 as int / 4 }
  function Sextet1(b0: byte, b1: byte): (v: int) ensures 0 <= v < 64 { b0 as int % 4 * 16 + b1 as int / 16 }
  function Sextet2(b1: byte, b2: byte): (v: int) ensures 0 <= v < 64 { b1 as int % 16 * 4 + b2 as int / 64 }
  function Sextet3(b2: byte): (v: int) ensures 0 <= v < 64 { b2 as int % 64 }

  /** The three octets of a group of 6-bit values `v0 v1 v2 v3`. */
  function Octet0(v0: int, v1: int): byte requires 0 <= v0 < 64 && 0 <= v1 < 64 { (v0 * 4 + v1 / 16) as byte }
  function Octet1(v1: int, v2: int): byte requires 0 <= v1 < 64 && 0 <= v2 < 64 { (v1 % 16 * 16 + v2 / 4) as byte }
  function Octet2(v2: int, v3: int): byte requires 0 <= v2 < 64 && 0 <= v3 < 64 { (v2 % 4 * 64 + v3) as byte }

  /** Splitting octets into 6-bit values and joining them again is the
      identity, octet by octet. */
  lemma Octet0OfSextets(b0: byte, b1: byte)
    ensures Octet0(Sextet0(b0), Sextet1(b0, b1)) == b0
  {
    assert Sextet1(b0, b1) / 16 == b0 as int % 4;
  }

  lemma Octet1OfSextets(b0: byte, b1: byte, b2: byte)
    ensures Octet1(Sextet1(b0, b1), Sextet2(b1, b2)) == b1
  {
    assert Sextet1(b0, b1) % 16 == b1 as int / 16;
    assert Sextet2(b1, b2) / 4 == b1 as int % 16;
  }

  lemma Octet2OfSextets(b1: byte, b2: byte)
    ensures Octet2(Sextet2(b1, b2), Sextet3(b2)) == b2
  {
    assert Sextet2(b1, b2) % 4 == b2 as int / 64;
  }

  /** The 6-bit values of `b` (section 4 of RFC 4648): four per full
      24-bit group, then two for a final single octet or three for a final
      pair, the missing low bits being zero. */
  function Sextets(b: seq<byte>): (v: seq<int>)
    ensures forall i :: 0 <= i < |v| ==> 0 <= v[i] < 64
    ensures |v| % 4 == (if |b| % 3 == 0 then 0 else |b| % 3 + 1)
    ensures |b| > 0 ==> |v| > 0
  {
    if |b| == 0 then []
    else if |b| == 1 then [Sextet0(b[0]), Sextet1(b[0], 0)]
    else if |b| == 2 then [Sextet0(b[0]), Sextet1(b[0], b[1]), Sextet2(b[1], 0)]
    else
      var rest := Sextets(b[3..]);
      assert |b[3..]| % 3 == |b| % 3 && (4 + |rest|) % 4 == |rest| % 4;
      [Sextet0(b[0]), Sextet1(b[0], b[1]), Sextet2(b[1], b[2]), Sextet3(b[2])] + rest
  }

  /** The encoded quanta of `b` without the `=` padding. */
  function Unpadded(b: seq<byte>): (r: string)
    ensures InAlphabet(r)
    ensures |r| % 4 == (if |b| % 3 == 0 then 0 else |b| % 3 + 1)
    ensures |b| > 0 ==> |r| > 0
  {
    var v := Sextets(b);
    seq(|v|, i requires 0 <= i < |v| => SextetChar(v[i]))
  }

  /** The `=` characters that fill the final quantum. */
  function Padding(n: nat): string {
    if n % 3 == 1 then "==" else if n % 3 == 2 then "=" else ""
  }

  /** Base64 encoding with padding (section 4 of RFC 4648). */
  function EncodeBytes(b: seq<byte>): (r: string)
    ensures |r| % 4 == 0
  {
    var u := Unpadded(b);
    assert |u| == 4 * (|u| / 4) + |u| % 4;
    u + Padding(|b|)
  }

  /** A string `btoa` accepts: every character fits in one octet. */
  predicate IsLatin1(s: string) {
    forall i :: 0 <= i < |s| ==> s[i] as int < 256
  }

  function Latin1Bytes(s: string): (r: seq<byte>)
    requires IsLatin1(s)
    ensures |r| == |s|
  {
    seq(|s|, i requires 0 <= i < |s| => s[i] as int as byte)
  }

  function Latin1Text(b: seq<byte>): (r: string)
    ensures |r| == |b| && IsLatin1(r)
  {
    seq(|b|, i requires 0 <= i < |b| => b[i] as int as char)
  }

  lemma Latin1TextOfBytes(s: string)
    requires IsLatin1(s)
    ensures Latin1Text(Latin1Bytes(s)) == s
  {
    assert forall i :: 0 <= i < |s| ==> Latin1Text(Latin1Bytes(s))[i] == s[i];
  }

  /** `btoa(s)`: throws when a character of `s` is above U+00FF. */
  function Btoa(s: string): (r: Result<string>)
    ensures r.Err? <==> !IsLatin1(s)
    ensures r.Err? ==> r.error == InvalidCharacterError
  {
    if IsLatin1(s) then Ok(EncodeBytes(Latin1Bytes(s))) else Err(InvalidCharacterError)
  }

  /** ASCII whitespace of the Infra Standard: TAB, LF, FF, CR and SPACE. */
  predicate IsAsciiWhitespace(c: char) {
    c == '\t' || c == '\n' || c == '\U{C}' || c == '\r' || c == ' '
  }

  function RemoveWhitespace(s: string): (r: string)
    ensures forall c :: c in r ==> c in s && !IsAsciiWhitespace(c)
  {
    if s == [] then []
    else if IsAsciiWhitespace(s[0]) then RemoveWhitespace(s[1..])
    else [s[0]] + RemoveWhitespace(s[1..])
  }

  /** When the length is a multiple of four, one or two trailing `=` are
      removed. */
  function StripPadding(s: string): string {
    if |s| % 4 != 0 then s
    else if |s| >= 2 && s[|s| - 2] == '=' && s[|s| - 1] == '=' then s[..|s| - 2]
    else if |s| >= 1 && s[|s| - 1] == '=' then s[..|s| - 1]
    else s
  }

  /** The 6-bit values of alphabet characters. */
  function Values(t: string): (v: seq<int>)
    requires InAlphabet(t)
    ensures |v| == |t| && forall i :: 0 <= i < |v| ==> 0 <= v[i] < 64
  {
    seq(|t|, i requires 0 <= i < |t| => SextetValue(t[i]))
  }

  /** Joining 6-bit values four at a time into three octets; a final group
      of two or three values gives one or two octets, the leftover bits
      being discarded. */
  function Octets(v: seq<int>): (r: seq<byte>)
    requires forall i :: 0 <= i < |v| ==> 0 <= v[i] < 64
    requires |v| % 4 != 1
  {
    if |v| == 0 then []
    else if |v| == 2 then [Octet0(v[0], v[1])]
    else if |v| == 3 then [Octet0(v[0], v[1]), Octet1(v[1], v[2])]
    else [Octet0(v[0], v[1]), Octet1(v[1], v[2]), Octet2(v[2], v[3])] + Octets(v[4..])
  }

  /** Forgiving-base64 decode: drop whitespace, drop the padding, reject a
      length of the form 4k + 1 and any character outside the alphabet. */
  function ForgivingDecode(s: string): (r: Option<seq<byte>>)
  {
    var t := StripPadding(RemoveWhitespace(s));
    if |t| % 4 == 1 then None
    else if !InAlphabet(t) then None
    else Some(Octets(Values(t)))
  }

  /** `atob(s)`: the decoded octets as a binary string. */
  function Atob(s: string): (r: Result<string>)
    ensures r.Err? <==> ForgivingDecode(s).None?
    ensures r.Err? ==> r.error == InvalidCharacterError
    ensures r.Ok? ==> IsLatin1(r.value)
  {
    match ForgivingDecode(s)
    case None => Err(InvalidCharacterError)
    case Some(b) => Ok(Latin1Text(b))
  }

  lemma {:induction false} RemoveWhitespaceOfEncoding(s: string)
    requires forall i :: 0 <= i < |s| ==> IsAlphabet(s[i]) || s[i] == '='
    ensures RemoveWhitespace(s) == s
  {
    if s != [] {
      assert forall i :: 0 <= i < |s[1..]| ==> s[1..][i] == s[i + 1];
      RemoveWhitespaceOfEncoding(s[1..]);
    }
  }

  lemma StripPaddingOfEncoding(b: seq<byte>)
    ensures StripPadding(EncodeBytes(b)) == Unpadded(b)
  {
    var u := Unpadded(b);
    var e := EncodeBytes(b);
    if |b| % 3 == 2 {
      assert e[|e| - 2] == u[|u| - 1];
    }
  }

  /** Joining the 6-bit values of `b` gives `b` back. */
  lemma {:induction false} OctetsOfSextets(b: seq<byte>)
    ensures Octets(Sextets(b)) == b
  {
    if |b| == 1 {
      Octet0OfSextets(b[0], 0);
    } else if |b| == 2 {
      Octet0OfSextets(b[0], b[1]);
      Octet1OfSextets(b[0], b[1], 0);
    } else if |b| >= 3 {
      var v := Sextets(b);
      assert v[4..] == Sextets(b[3..]);
      Octet0OfSextets(b[0], b[1]);
      Octet1OfSextets(b[0], b[1], b[2]);
      Octet2OfSextets(b[1], b[2]);
      OctetsOfSextets(b[3..]);
      assert b == [b[0], b[1], b[2]] + b[3..];
    }
  }

  /** Reading the characters of the quanta gives back their 6-bit values. */
  lemma ValuesOfUnpadded(b: seq<byte>)
    ensures Values(Unpadded(b)) == Sextets(b)
  {
    var v := Sextets(b);
    forall i | 0 <= i < |v| ensures Values(Unpadded(b))[i] == v[i] {
      SextetValueOfChar(v[i]);
    }
  }

  /** `atob(btoa(s)) == s` for every string `btoa` accepts. */
  lemma AtobBtoa(s: string)
    requires IsLatin1(s)
    ensures Btoa(s).Ok? && Atob(Btoa(s).value) == Ok(s)
  {
    var b := Latin1Bytes(s);
    var e := EncodeBytes(b);
    RemoveWhitespaceOfEncoding(e);
    StripPaddingOfEncoding(b);
    ValuesOfUnpadded(b);
    OctetsOfSextets(b);
    assert StripPadding(RemoveWhitespace(e)) == Unpadded(b);
    assert ForgivingDecode(e) == Some(b);
    Latin1TextOfBytes(s);
  }
}
