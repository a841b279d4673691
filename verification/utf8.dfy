/** The UTF-8 `TextEncoder` and `TextDecoder` of the WHATWG Encoding
    Standard, which CryptoManager uses to turn text into the octets that are
    hashed, encrypted and decrypted. A Dafny `char` is a Unicode scalar
    value, so every string here is well-formed. */
module Utf8 {
  import opened Bytes

  /** U+FFFD REPLACEMENT CHARACTER, emitted for malformed input. */
  const Replacement: char := '\U{FFFD}'
  /** U+FEFF, the byte order mark a default `TextDecoder` removes. */
  const Bom: char := '\U{FEFF}'

  predicate IsContinuation(b: byte) { 0x80 <= b < 0xC0 }

  /** The UTF-8 encoding of one scalar value (section 3 of RFC 3629). */
  function EncodeChar(c: char): (r: seq<byte>)
    ensures 1 <= |r| <= 4
    ensures forall i :: 1 <= i < |r| ==> IsContinuation(r[i])
  {
    var n := c as int;
    if n < 0x80 then [n as byte]
    else if n < 0x800 then [(0xC0 + n / 64) as byte, (0x80 + n % 64) as byte]
    else if n < 0x10000 then
      [(0xE0 + n / 4096) as byte, (0x80 + n / 64 % 64) as byte, (0x80 + n % 64) as byte]
    else
      [(0xF0 + n / 262144) as byte, (0x80 + n / 4096 % 64) as byte,
       (0x80 + n / 64 % 64) as byte, (0x80 + n % 64) as byte]
  }

  /** `TextEncoder.encode(s)`. */
  function Encode(s: string): (r: seq<byte>)
    ensures |r| >= |s|
  {
    if s == [] then [] else EncodeChar(s[0]) + Encode(s[1..])
  }

  /** The state of the UTF-8 decoder between two octets: the code point
      collected so far, how many continuation octets it needs and has seen,
      and the range the next continuation octet must fall in. */
  datatype DecoderState = DecoderState(codePoint: int, needed: nat, seen: nat, lower: int, upper: int)

  const Initial := DecoderState(0, 0, 0, 0x80, 0xBF)

  /** The states the decoder can reach. The ranges of `codePoint` are what
      guarantee that a completed sequence is a scalar value: the bounds put
      on the first continuation octet exclude overlong forms, surrogates and
      values above U+10FFFF. */
  ghost predicate Reachable(st: DecoderState) {
    if st.needed == 0 then st == Initial
    else if st.needed == 1 then
      st.seen == 0 && 2 <= st.codePoint < 32 && st.lower == 0x80 && st.upper == 0xBF
    else if st.needed == 2 && st.seen == 0 then
      0 <= st.codePoint < 16 &&
      st.lower == (if st.codePoint == 0 then 0xA0 else 0x80) &&
      st.upper == (if st.codePoint == 13 then 0x9F else 0xBF)
    else if st.needed == 2 && st.seen == 1 then
      32 <= st.codePoint < 1024 && !(0x360 <= st.codePoint < 0x380) &&
      st.lower == 0x80 && st.upper == 0xBF
    else if st.needed == 3 && st.seen == 0 then
      0 <= st.codePoint <= 4 &&
      st.lower == (if st.codePoint == 0 then 0x90 else 0x80) &&
      st.upper == (if st.codePoint == 4 then 0x8F else 0xBF)
    else if st.needed == 3 && st.seen == 1 then
      16 <= st.codePoint < 0x110 && st.lower == 0x80 && st.upper == 0xBF
    else if st.needed == 3 && st.seen == 2 then
      0x400 <= st.codePoint < 0x4400 && st.lower == 0x80 && st.upper == 0xBF
    else false
  }

  /** The state after a lead octet `x`: its payload bits, how many
      continuation octets follow (one for C2-DF, two for E0-EF, three for
      F0-F4), and the narrowed range for the first of them after E0, ED, F0
      and F4. The payload `x & 0x1F`, `x & 0xF` or `x & 0x7` is written as a
      difference, which it equals on each of these ranges. */
  function LeadState(x: int): (st: DecoderState)
    requires 0xC2 <= x <= 0xF4
    ensures Reachable(st) && st.needed > 0
  {
    if x <= 0xDF then DecoderState(x - 0xC0, 1, 0, 0x80, 0xBF)
    else if x <= 0xEF then
      DecoderState(x - 0xE0, 2, 0, if x == 0xE0 then 0xA0 else 0x80, if x == 0xED then 0x9F else 0xBF)
    else
      DecoderState(x - 0xF0, 3, 0, if x == 0xF0 then 0x90 else 0x80, if x == 0xF4 then 0x8F else 0xBF)
  }

  /** The UTF-8 decoder of section 9.1.1 of the Encoding Standard run over
      `b` from state `st`, with the end-of-queue step applied at the end. An
      octet that does not continue the current sequence yields U+FFFD and is
      processed again from the initial state. The six bits `x & 0x3F` of a
      continuation octet, which lies in 80-BF, are written `x - 0x80`. */
  function DecodeFrom(b: seq<byte>, st: DecoderState): (r: string)
    requires Reachable(st)
    decreases |b|, if st.needed == 0 then 0 else 1
  {
    if b == [] then
      (if st.needed != 0 then [Replacement] else [])
    else
      var x := b[0] as int;
      if st.needed == 0 then
        if x < 0x80 then [x as char] + DecodeFrom(b[1..], Initial)
        else if 0xC2 <= x <= 0xF4 then DecodeFrom(b[1..], LeadState(x))
        else [Replacement] + DecodeFrom(b[1..], Initial)
      else if !(st.lower <= x <= st.upper) then
        [Replacement] + DecodeFrom(b, Initial)
      else
        var cp := st.codePoint * 64 + (x - 0x80);
        if st.seen + 1 == st.needed then [cp as char] + DecodeFrom(b[1..], Initial)
        else DecodeFrom(b[1..], DecoderState(cp, st.needed, st.seen + 1, 0x80, 0xBF))
  }

  /** `new TextDecoder('utf-8', {ignoreBOM}).decode(b)`: unless `ignoreBom`
      is set, a leading U+FEFF of the decoded text is dropped. */
  function Decode(b: seq<byte>, ignoreBom: bool): string {
    var s := DecodeFrom(b, Initial);
    if !ignoreBom && s != [] && s[0] == Bom then s[1..] else s
  }

  /** Decoding the encoding of one character yields that character and
      leaves the decoder in its initial state. */
  lemma DecodeEncodedChar(c: char, rest: seq<byte>)
    ensures DecodeFrom(EncodeChar(c) + rest, Initial) == [c] + DecodeFrom(rest, Initial)
  {
    var n := c as int;
    if n < 0x80 {
      assert (EncodeChar(c) + rest)[1..] == rest;
    } else if n < 0x800 {
      DecodeTwo(c, rest);
    } else if n < 0x10000 {
      DecodeThree(c, rest);
    } else {
      DecodeFour(c, rest);
    }
  }

  lemma DecodeTwo(c: char, rest: seq<byte>)
    requires 0x80 <= c as int < 0x800
    ensures DecodeFrom(EncodeChar(c) + rest, Initial) == [c] + DecodeFrom(rest, Initial)
  {
    var n := c as int;
    var e := EncodeChar(c);
    var hi, lo := n / 64, n % 64;
    assert n == hi * 64 + lo;
    assert e[0] as int == 0xC0 + hi && e[1] as int == 0x80 + lo;
    var s1 := DecoderState(hi, 1, 0, 0x80, 0xBF);
    assert (e + rest)[1..] == [e[1]] + rest;
    assert ([e[1]] + rest)[1..] == rest;
    assert DecodeFrom([e[1]] + rest, s1) == [c] + DecodeFrom(rest, Initial);
  }

  /** A lead octet moves the decoder to its state. */
  lemma LeadStep(x: byte, rest: seq<byte>)
    requires 0xC2 <= x as int <= 0xF4
    ensures DecodeFrom([x] + rest, Initial) == DecodeFrom(rest, LeadState(x as int))
  {
    assert ([x] + rest)[1..] == rest;
  }

  /** A continuation octet `0x80 + v` in range that does not complete the
      sequence adds its six bits `v` to the code point. */
  lemma ContinuationStep(st: DecoderState, v: int, rest: seq<byte>)
    requires Reachable(st) && st.needed != 0 && 0 <= v < 64 && st.lower <= 0x80 + v <= st.upper
    requires st.seen + 1 < st.needed
    ensures Reachable(DecoderState(st.codePoint * 64 + v, st.needed, st.seen + 1, 0x80, 0xBF))
    ensures DecodeFrom([(0x80 + v) as byte] + rest, st) ==
              DecodeFrom(rest, DecoderState(st.codePoint * 64 + v, st.needed, st.seen + 1, 0x80, 0xBF))
  {
    assert ([(0x80 + v) as byte] + rest)[1..] == rest;
  }

  /** The continuation octet `0x80 + v` that completes a sequence emits its
      scalar value. */
  lemma FinalStep(st: DecoderState, v: int, rest: seq<byte>)
    requires Reachable(st) && st.needed != 0 && 0 <= v < 64 && st.lower <= 0x80 + v <= st.upper
    requires st.seen + 1 == st.needed
    ensures var cp := st.codePoint * 64 + v;
            (0 <= cp < 0xD800 || 0xE000 <= cp < 0x110000) &&
            DecodeFrom([(0x80 + v) as byte] + rest, st) == [cp as char] + DecodeFrom(rest, Initial)
  {
    assert ([(0x80 + v) as byte] + rest)[1..] == rest;
  }

  /** A three-octet sequence, given by the parts of its code point. */
  lemma DecodeThreeParts(a: int, b: int, d: int, rest: seq<byte>)
    requires 0 <= a < 16 && 0 <= b < 64 && 0 <= d < 64
    requires a == 0 ==> b >= 32
    requires a == 13 ==> b < 32
    ensures var cp := (a * 64 + b) * 64 + d;
            (0 <= cp < 0xD800 || 0xE000 <= cp < 0x110000) &&
            DecodeFrom([(0xE0 + a) as byte] + ([(0x80 + b) as byte] + ([(0x80 + d) as byte] + rest)), Initial)
              == [cp as char] + DecodeFrom(rest, Initial)
  {
    var t2 := [(0x80 + d) as byte] + rest;
    var t1 := [(0x80 + b) as byte] + t2;
    var s1 := DecoderState(a, 2, 0, if a == 0 then 0xA0 else 0x80, if a == 13 then 0x9F else 0xBF);
    var s2 := DecoderState(a * 64 + b, 2, 1, 0x80, 0xBF);
    LeadStep((0xE0 + a) as byte, t1);
    assert LeadState(0xE0 + a) == s1;
    ContinuationStep(s1, b, t2);
    FinalStep(s2, d, rest);
  }

  lemma DecodeThree(c: char, rest: seq<byte>)
    requires 0x800 <= c as int < 0x10000
    ensures DecodeFrom(EncodeChar(c) + rest, Initial) == [c] + DecodeFrom(rest, Initial)
  {
    var n := c as int;
    var a, b, d := n / 4096, n / 64 % 64, n % 64;
    assert n / 64 == a * 64 + b;
    assert n == (a * 64 + b) * 64 + d;
    var x0, x1, x2 := (0xE0 + a) as byte, (0x80 + b) as byte, (0x80 + d) as byte;
    assert EncodeChar(c) == [x0, x1, x2];
    assert [x0, x1, x2] + rest == [x0] + ([x1] + ([x2] + rest));
    DecodeThreeParts(a, b, d, rest);
  }

  /** The last octet of a four-octet sequence, after the first three gave
      `p`. */
  lemma DecodeFourLast(p: int, f: int, rest: seq<byte>)
    requires 0x400 <= p < 0x4400 && 0 <= f < 64
    ensures var cp := p * 64 + f;
            (0 <= cp < 0xD800 || 0xE000 <= cp < 0x110000) &&
            DecodeFrom([(0x80 + f) as byte] + rest, DecoderState(p, 3, 2, 0x80, 0xBF))
              == [cp as char] + DecodeFrom(rest, Initial)
  {
    FinalStep(DecoderState(p, 3, 2, 0x80, 0xBF), f, rest);
  }

  /** The last two octets of a four-octet sequence, after the first two
      gave `q`. */
  lemma DecodeFourTail(q: int, d: int, f: int, rest: seq<byte>)
    requires 16 <= q < 0x110 && 0 <= d < 64 && 0 <= f < 64
    ensures var cp := (q * 64 + d) * 64 + f;
            (0 <= cp < 0xD800 || 0xE000 <= cp < 0x110000) &&
            DecodeFrom([(0x80 + d) as byte] + ([(0x80 + f) as byte] + rest), DecoderState(q, 3, 1, 0x80, 0xBF))
              == [cp as char] + DecodeFrom(rest, Initial)
  {
    ContinuationStep(DecoderState(q, 3, 1, 0x80, 0xBF), d, [(0x80 + f) as byte] + rest);
    DecodeFourLast(q * 64 + d, f, rest);
  }

  /** A four-octet sequence, given by the parts of its code point. */
  lemma DecodeFourParts(a: int, b: int, d: int, f: int, rest: seq<byte>)
    requires 0 <= a <= 4 && 0 <= b < 64 && 0 <= d < 64 && 0 <= f < 64
    requires a == 0 ==> b >= 16
    requires a == 4 ==> b < 16
    ensures var cp := ((a * 64 + b) * 64 + d) * 64 + f;
            (0 <= cp < 0xD800 || 0xE000 <= cp < 0x110000) &&
            DecodeFrom([(0xF0 + a) as byte] + ([(0x80 + b) as byte] + ([(0x80 + d) as byte] +
                       ([(0x80 + f) as byte] + rest))), Initial)
              == [cp as char] + DecodeFrom(rest, Initial)
  {
    var t2 := [(0x80 + d) as byte] + ([(0x80 + f) as byte] + rest);
    var t1 := [(0x80 + b) as byte] + t2;
    var s1 := DecoderState(a, 3, 0, if a == 0 then 0x90 else 0x80, if a == 4 then 0x8F else 0xBF);
    LeadStep((0xF0 + a) as byte, t1);
    assert LeadState(0xF0 + a) == s1;
    ContinuationStep(s1, b, t2);
    DecodeFourTail(a * 64 + b, d, f, rest);
  }

  /** The parts of a code point above U+FFFF, as its encoding takes them. */
  lemma SplitFour(n: int, a: int, b: int, d: int, f: int)
    requires 0x10000 <= n < 0x110000
    requires a == n / 262144 && b == n / 4096 % 64 && d == n / 64 % 64 && f == n % 64
    ensures n == ((a * 64 + b) * 64 + d) * 64 + f
    ensures 0 <= a <= 4 && 0 <= b < 64 && 0 <= d < 64 && 0 <= f < 64
    ensures a == 0 ==> b >= 16
    ensures a == 4 ==> b < 16
  {
    assert n / 4096 == a * 64 + b;
    assert n / 64 == (a * 64 + b) * 64 + d;
  }

  lemma DecodeFour(c: char, rest: seq<byte>)
    requires 0x10000 <= c as int
    ensures DecodeFrom(EncodeChar(c) + rest, Initial) == [c] + DecodeFrom(rest, Initial)
  {
    var n := c as int;
    var a, b, d, f := n / 262144, n / 4096 % 64, n / 64 % 64, n % 64;
    SplitFour(n, a, b, d, f);
    var x0, x1, x2, x3 := (0xF0 + a) as byte, (0x80 + b) as byte, (0x80 + d) as byte, (0x80 + f) as byte;
    assert EncodeChar(c) == [x0, x1, x2, x3];
    assert [x0, x1, x2, x3] + rest == [x0] + ([x1] + ([x2] + ([x3] + rest)));
    DecodeFourParts(a, b, d, f, rest);
  }

  /** The decoder inverts the encoder on every string. */
  lemma {:induction false} DecodeFromEncode(s: string)
    ensures DecodeFrom(Encode(s), Initial) == s
  {
    if s != [] {
      DecodeEncodedChar(s[0], Encode(s[1..]));
      DecodeFromEncode(s[1..]);
    }
  }

  /** A decoder that keeps the byte order mark returns exactly the text that
      was encoded. */
  lemma DecodeEncodeKeepingBom(s: string)
    ensures Decode(Encode(s), true) == s
  {
    DecodeFromEncode(s);
  }

  /** A default decoder returns the encoded text minus a leading U+FEFF. */
  lemma DecodeEncodeDefault(s: string)
    ensures s != [] && s[0] == Bom ==> Decode(Encode(s), false) == s[1..]
    ensures (s == [] || s[0] != Bom) ==> Decode(Encode(s), false) == s
  {
    DecodeFromEncode(s);
  }
}
