/** The hexadecimal text `generateHash` makes of a digest:
    `bytes.map(b => b.toString(16).padStart(2, '0')).join('')`. */
module Hex {
  import opened Wrappers
  import opened Bytes

  /** The digit JavaScript's `Number.prototype.toString(16)` writes for
      `d`: `0`-`9`, then lower-case `a`-`f`. */
  function Digit(d: int): (c: char)
    requires 0 <= d < 16
    ensures IsDigit(c)
  {
    if d < 10 then ('0' as int + d) as char else ('a' as int + d - 10) as char
  }

  predicate IsDigit(c: char) {
    '0' <= c <= '9' || 'a' <= c <= 'f'
  }

  function DigitValue(c: char): (d: int)
    requires IsDigit(c)
    ensures 0 <= d < 16 && Digit(d) == c
  {
    if c <= '9' then c as int - '0' as int else c as int - 'a' as int + 10
  }

  lemma DigitValueOfDigit(d: int)
    requires 0 <= d < 16
    ensures DigitValue(Digit(d)) == d
  {
  }

  /** `n.toString(16)` for a non-negative integer: no leading zeros. */
  function ToString16(n: nat): (r: string)
    ensures r != [] && forall i :: 0 <= i < |r| ==> IsDigit(r[i])
    decreases n
  {
    if n < 16 then [Digit(n)] else ToString16(n / 16) + [Digit(n % 16)]
  }

  /** `s.padStart(n, fill)` for a one-character `fill`. */
  function PadStart(s: string, n: nat, fill: char): (r: string)
    ensures |r| == if |s| >= n then |s| else n
    ensures r[|r| - |s|..] == s
    ensures forall i :: 0 <= i < |r| - |s| ==> r[i] == fill
  {
    if |s| >= n then s else seq(n - |s|, _ => fill) + s
  }

  /** The two characters one octet contributes. */
  function ByteToHex(b: byte): string {
    PadStart(ToString16(b as nat), 2, '0')
  }

  /** Every octet becomes exactly two lower-case digits, high nibble first,
      zero-padded. */
  lemma ByteToHexDigits(b: byte)
    ensures ByteToHex(b) == [Digit(b as int / 16), Digit(b as int % 16)]
  {
    if b < 16 {
      assert ToString16(b as nat) == [Digit(b as int)];
    } else {
      assert ToString16(b as nat / 16) == [Digit(b as int / 16)];
    }
  }

  /** The hex text of an octet string. */
  function Encode(bs: seq<byte>): (r: string)
    ensures |r| == 2 * |bs|
  {
    if bs == [] then [] else ByteToHexDigits(bs[0]); ByteToHex(bs[0]) + Encode(bs[1..])
  }

  /** The same text described position by position: octet `i` gives
      character `2i`, its high nibble, and `2i + 1`, its low nibble. */
  function Nibbles(bs: seq<byte>): (r: string)
    ensures |r| == 2 * |bs|
  {
    seq(2 * |bs|, j requires 0 <= j < 2 * |bs| =>
      if j % 2 == 0 then Digit(bs[j / 2] as int / 16) else Digit(bs[j / 2] as int % 16))
  }

  lemma NibblesCons(bs: seq<byte>)
    requires bs != []
    ensures Nibbles(bs) == [Digit(bs[0] as int / 16), Digit(bs[0] as int % 16)] + Nibbles(bs[1..])
  {
    var h := [Digit(bs[0] as int / 16), Digit(bs[0] as int % 16)];
    var r := Nibbles(bs[1..]);
    forall j | 2 <= j < 2 * |bs|
      ensures Nibbles(bs)[j] == r[j - 2]
    {
      assert (j - 2) / 2 == j / 2 - 1 && (j - 2) % 2 == j % 2;
      assert bs[1..][j / 2 - 1] == bs[j / 2];
    }
    assert Nibbles(bs) == h + r;
  }

  lemma NibblesAt(bs: seq<byte>, i: int)
    requires 0 <= i < |bs|
    ensures Nibbles(bs)[2 * i] == Digit(bs[i] as int / 16)
    ensures Nibbles(bs)[2 * i + 1] == Digit(bs[i] as int % 16)
  {
    assert (2 * i) / 2 == i && (2 * i) % 2 == 0;
    assert (2 * i + 1) / 2 == i && (2 * i + 1) % 2 == 1;
  }

  /** `Encode` and the positional description agree. */
  lemma {:induction false} EncodeIsNibbles(bs: seq<byte>)
    ensures Encode(bs) == Nibbles(bs)
  {
    if bs != [] {
      ByteToHexDigits(bs[0]);
      EncodeIsNibbles(bs[1..]);
      NibblesCons(bs);
    }
  }

  /** Octet `i` becomes characters `2i` and `2i + 1`: its high and low
      nibble as lower-case digits. */
  lemma EncodeAt(bs: seq<byte>, i: int)
    requires 0 <= i < |bs|
    ensures Encode(bs)[2 * i] == Digit(bs[i] as int / 16)
    ensures Encode(bs)[2 * i + 1] == Digit(bs[i] as int % 16)
  {
    EncodeIsNibbles(bs);
    NibblesAt(bs, i);
  }

  /** Every character of an encoding is a lower-case hex digit. */
  lemma EncodeIsLowerHex(bs: seq<byte>)
    ensures forall j :: 0 <= j < |Encode(bs)| ==> IsDigit(Encode(bs)[j])
  {
    EncodeIsNibbles(bs);
  }

  /** Reading hex text back into octets: two digits per octet. */
  function Decode(s: string): (r: Option<seq<byte>>)
    ensures r.Some? ==> 2 * |r.value| == |s|
    decreases |s|
  {
    if s == [] then Some([])
    else if |s| < 2 || !IsDigit(s[0]) || !IsDigit(s[1]) then None
    else match Decode(s[2..])
      case None => None
      case Some(rest) => Some([(DigitValue(s[0]) * 16 + DigitValue(s[1])) as byte] + rest)
  }

  /** Decoding an encoding returns the original octets. */
  lemma {:induction false} DecodeEncode(bs: seq<byte>)
    ensures Decode(Encode(bs)) == Some(bs)
  {
    if bs != [] {
      var r := Encode(bs);
      ByteToHexDigits(bs[0]);
      assert r[2..] == Encode(bs[1..]);
      DigitValueOfDigit(bs[0] as int / 16);
      DigitValueOfDigit(bs[0] as int % 16);
      DecodeEncode(bs[1..]);
      assert [bs[0]] + bs[1..] == bs;
    }
  }

  /** Encoding is one-to-one, and the only texts that decode are
      encodings: `Decode` and `Encode` are inverse bijections. */
  lemma {:induction false} EncodeDecode(s: string)
    requires Decode(s).Some?
    ensures Encode(Decode(s).value) == s
    decreases |s|
  {
    if s != [] {
      var bs := Decode(s).value;
      var hi, lo := DigitValue(s[0]), DigitValue(s[1]);
      assert bs[0] as int == hi * 16 + lo;
      assert bs[1..] == Decode(s[2..]).value;
      EncodeDecode(s[2..]);
      ByteToHexDigits(bs[0]);
      assert bs[0] as int / 16 == hi && bs[0] as int % 16 == lo;
      assert s == [s[0], s[1]] + s[2..];
    }
  }
}
