/** `JSON.stringify` of an encrypted package (RFC 8259 text with the layout
    ECMA-262 gives it), and a reader for that layout: the five members in
    their order, no whitespace, integer numbers, JSON string escapes. */
module PackageJson {
  import opened Wrappers
  import opened EncryptedPackage
  import Hex
  import Base64

  // ----- numbers --------------------------------------------------------

  predicate IsDecDigit(c: char) { '0' <= c <= '9' }

  function DecDigit(d: int): (c: char)
    requires 0 <= d < 10
    ensures IsDecDigit(c)
  {
    ('0' as int + d) as char
  }

  /** The value of a decimal digit; 0 for any other character. */
  function DecValue(c: char): (d: int)
    ensures 0 <= d < 10
    ensures IsDecDigit(c) ==> DecDigit(d) == c
  {
    if IsDecDigit(c) then c as int - '0' as int else 0
  }

  predicate AllDecDigits(s: string) {
    forall i :: 0 <= i < |s| ==> IsDecDigit(s[i])
  }

  /** The decimal digits of `n`, without leading zeros. */
  function NatToDecimal(n: nat): (r: string)
    ensures r != [] && AllDecDigits(r)
    ensures r[0] == '0' ==> n == 0
    decreases n
  {
    if n < 10 then [DecDigit(n)] else NatToDecimal(n / 10) + [DecDigit(n % 10)]
  }

  /** `Number.prototype.toString()` of an integral number. */
  function NumberText(n: int): string {
    if n < 0 then "-" + NatToDecimal(-n) else NatToDecimal(n)
  }

  /** The value of a string of decimal digits. */
  function DecimalValue(ds: string): nat {
    if ds == [] then 0 else DecimalValue(ds[..|ds| - 1]) * 10 + DecValue(ds[|ds| - 1])
  }

  /** The number of decimal digits `s` starts with. */
  function DigitRun(s: string): (k: nat)
    ensures k <= |s|
    ensures k < |s| ==> !IsDecDigit(s[k])
  {
    if s != [] && IsDecDigit(s[0]) then 1 + DigitRun(s[1..]) else 0
  }

  /** A JSON number without fraction or exponent: an optional minus sign,
      then `0` or a digit string that does not start with `0`. */
  function ParseInt(s: string): (r: Option<(int, string)>)
    ensures r.Some? ==> |r.value.1| < |s|
  {
    var neg := s != [] && s[0] == '-';
    var t := if neg then s[1..] else s;
    var k := DigitRun(t);
    if k == 0 || (t[0] == '0' && k > 1) then None
    else
      var v: int := DecimalValue(t[..k]);
      Some((if neg then -v else v, t[k..]))
  }

  lemma {:induction false} DecimalValueOfNat(n: nat)
    ensures DecimalValue(NatToDecimal(n)) == n
    decreases n
  {
    if n >= 10 {
      var r := NatToDecimal(n);
      assert r[..|r| - 1] == NatToDecimal(n / 10);
      DecimalValueOfNat(n / 10);
    }
  }

  lemma {:induction false} DigitRunOfDigits(ds: string, tail: string)
    requires AllDecDigits(ds)
    requires tail == [] || !IsDecDigit(tail[0])
    ensures DigitRun(ds + tail) == |ds|
  {
    if ds != [] {
      assert (ds + tail)[1..] == ds[1..] + tail;
      DigitRunOfDigits(ds[1..], tail);
    }
  }

  /** The digits of a natural number read back, with what follows them. */
  lemma DigitsOfNat(m: nat, tail: string)
    requires tail == [] || !IsDecDigit(tail[0])
    ensures var t := NatToDecimal(m) + tail;
            var k := DigitRun(t);
            k == |NatToDecimal(m)| && t[..k] == NatToDecimal(m) && t[k..] == tail
  {
    var ds := NatToDecimal(m);
    DigitRunOfDigits(ds, tail);
    assert (ds + tail)[..|ds|] == ds && (ds + tail)[|ds|..] == tail;
  }

  lemma ParseIntOfDigits(m: nat, tail: string)
    requires tail == [] || !IsDecDigit(tail[0])
    ensures ParseInt(NatToDecimal(m) + tail) == Some((m, tail))
  {
    var ds := NatToDecimal(m);
    DigitsOfNat(m, tail);
    DecimalValueOfNat(m);
    assert (ds + tail)[0] == ds[0];
  }

  lemma ParseIntOfMinusDigits(m: nat, tail: string)
    requires tail == [] || !IsDecDigit(tail[0])
    ensures ParseInt("-" + (NatToDecimal(m) + tail)) == Some((-(m as int), tail))
  {
    var t := NatToDecimal(m) + tail;
    DigitsOfNat(m, tail);
    DecimalValueOfNat(m);
    assert ("-" + t)[1..] == t;
  }

  lemma SignAssoc(ds: string, tail: string)
    ensures ("-" + ds) + tail == "-" + (ds + tail)
  {
  }

  /** Reading a number back from its text, when what follows it is not a
      digit. */
  lemma ParseIntOfNumberText(n: int, tail: string)
    requires tail == [] || !IsDecDigit(tail[0])
    ensures ParseInt(NumberText(n) + tail) == Some((n, tail))
  {
    if n < 0 {
      SignAssoc(NatToDecimal(-n), tail);
      ParseIntOfMinusDigits(-n, tail);
    } else {
      ParseIntOfDigits(n, tail);
    }
  }

  // ----- arrays of numbers ----------------------------------------------

  /** The elements of an array, separated by commas. */
  function Elements(xs: seq<int>): string {
    if xs == [] then ""
    else if |xs| == 1 then NumberText(xs[0])
    else NumberText(xs[0]) + ("," + Elements(xs[1..]))
  }

  function ArrayText(xs: seq<int>): string {
    "[" + (Elements(xs) + "]")
  }

  /** The elements of a non-empty array and its closing bracket. */
  function ParseElements(s: string): (r: Option<(seq<int>, string)>)
    ensures r.Some? ==> |r.value.1| < |s|
    decreases |s|
  {
    match ParseInt(s)
    case None => None
    case Some((n, rest)) =>
      if rest != [] && rest[0] == ']' then Some(([n], rest[1..]))
      else if rest != [] && rest[0] == ',' then
        match ParseElements(rest[1..])
        case None => None
        case Some((ns, rest')) => Some(([n] + ns, rest'))
      else None
  }

  /** An array of numbers. */
  function ParseArray(s: string): (r: Option<(seq<int>, string)>)
    ensures r.Some? ==> |r.value.1| < |s|
  {
    if s == [] || s[0] != '[' then None
    else if |s| >= 2 && s[1] == ']' then Some(([], s[2..]))
    else ParseElements(s[1..])
  }

  /** `ParseElements` on a number followed by `]`. */
  lemma ParseElementsAtEnd(n: int, tail: string)
    ensures ParseElements(NumberText(n) + ("]" + tail)) == Some(([n], tail))
  {
    ParseIntOfNumberText(n, "]" + tail);
    assert ("]" + tail)[1..] == tail;
  }

  /** `ParseElements` on a number followed by `,` and more elements. */
  lemma ParseElementsAtComma(n: int, inner: string, ns: seq<int>, tail: string)
    requires ParseElements(inner) == Some((ns, tail))
    ensures ParseElements(NumberText(n) + ("," + inner)) == Some(([n] + ns, tail))
  {
    assert ("," + inner)[0] == ',' && ("," + inner)[1..] == inner;
    ParseIntOfNumberText(n, "," + inner);
  }

  lemma ElementsCons(n: int, ns: seq<int>, tail: string)
    requires ns != []
    ensures Elements([n] + ns) + tail == NumberText(n) + ("," + (Elements(ns) + tail))
  {
    assert ([n] + ns)[0] == n && ([n] + ns)[1..] == ns;
    CommaAssoc(NumberText(n), Elements(ns), tail);
  }

  lemma CommaAssoc(n: string, e: string, tail: string)
    ensures (n + ("," + e)) + tail == n + ("," + (e + tail))
  {
    assert (n + ("," + e)) + tail == n + (("," + e) + tail);
  }

  lemma ParseElementsOfSingle(xs: seq<int>, tail: string)
    requires |xs| == 1
    ensures ParseElements(Elements(xs) + ("]" + tail)) == Some((xs, tail))
  {
    ParseElementsAtEnd(xs[0], tail);
    assert xs == [xs[0]];
  }

  lemma ParseElementsOfCons(n: int, ns: seq<int>, tail: string)
    requires ns != []
    requires ParseElements(Elements(ns) + ("]" + tail)) == Some((ns, tail))
    ensures ParseElements(Elements([n] + ns) + ("]" + tail)) == Some(([n] + ns, tail))
  {
    ElementsCons(n, ns, "]" + tail);
    ParseElementsAtComma(n, Elements(ns) + ("]" + tail), ns, tail);
  }

  lemma {:induction false} ParseElementsOfText(xs: seq<int>, tail: string)
    requires xs != []
    ensures ParseElements(Elements(xs) + ("]" + tail)) == Some((xs, tail))
  {
    if |xs| == 1 {
      ParseElementsOfSingle(xs, tail);
    } else {
      ParseElementsOfText(xs[1..], tail);
      ParseElementsOfSplit(xs, tail);
    }
  }

  /** `ParseElementsOfCons` for a sequence split into head and tail. */
  lemma ParseElementsOfSplit(xs: seq<int>, tail: string)
    requires |xs| >= 2
    requires ParseElements(Elements(xs[1..]) + ("]" + tail)) == Some((xs[1..], tail))
    ensures ParseElements(Elements(xs) + ("]" + tail)) == Some((xs, tail))
  {
    assert xs == [xs[0]] + xs[1..];
    ParseElementsOfCons(xs[0], xs[1..], tail);
  }

  /** The text between and after the brackets of an array. */
  lemma BracketSplit(e: string, tail: string)
    ensures var s := "[" + (e + "]") + tail;
            |s| >= 2 && s[0] == '[' && s[1] == (if e == [] then ']' else e[0]) &&
            s[1..] == e + ("]" + tail) && (e == [] ==> s[2..] == tail)
  {
    var s := "[" + (e + "]") + tail;
    assert s == "[" + (e + ("]" + tail));
  }

  /** The elements of a non-empty array start with a sign or a digit. */
  lemma ElementsStart(xs: seq<int>)
    requires xs != []
    ensures Elements(xs) != [] && Elements(xs)[0] != ']'
  {
    var t := NumberText(xs[0]);
    assert Elements(xs)[0] == t[0];
  }

  lemma ParseArrayOfText(xs: seq<int>, tail: string)
    ensures ParseArray(ArrayText(xs) + tail) == Some((xs, tail))
  {
    BracketSplit(Elements(xs), tail);
    if xs != [] {
      ElementsStart(xs);
      ParseElementsOfText(xs, tail);
    }
  }

  // ----- strings --------------------------------------------------------

  /** QuoteJSONString of ECMA-262 for one character: the seven short
      escapes, `\u00xx` with lower-case hex for the other control
      characters, the character itself otherwise. */
  function EscapeChar(c: char): (r: string)
    ensures r != [] && r[0] != '"'
  {
    if c == '\U{8}' then "\\b"
    else if c == '\t' then "\\t"
    else if c == '\n' then "\\n"
    else if c == '\U{C}' then "\\f"
    else if c == '\r' then "\\r"
    else if c == '"' then "\\\""
    else if c == '\\' then "\\\\"
    else if c < ' ' then "\\u00" + [Hex.Digit(c as int / 16), Hex.Digit(c as int % 16)]
    else [c]
  }

  function EscapeAll(s: string): string {
    if s == [] then "" else EscapeChar(s[0]) + EscapeAll(s[1..])
  }

  function Quote(s: string): string {
    "\"" + (EscapeAll(s) + "\"")
  }

  predicate IsJsonHexDigit(c: char) {
    '0' <= c <= '9' || 'a' <= c <= 'f' || 'A' <= c <= 'F'
  }

  function JsonHexValue(c: char): (d: int)
    requires IsJsonHexDigit(c)
    ensures 0 <= d < 16
  {
    if c <= '9' then c as int - '0' as int
    else if c <= 'F' then c as int - 'A' as int + 10
    else c as int - 'a' as int + 10
  }

  /** One character of a JSON string body, plain or escaped. A `\u` escape
      of a surrogate code unit is refused. */
  function ParseChar(s: string): (r: Option<(char, string)>)
    requires s != [] && s[0] != '"'
    ensures r.Some? ==> |r.value.1| < |s|
  {
    if s[0] == '\\' then
      if |s| < 2 then None
      else if s[1] == '"' then Some(('"', s[2..]))
      else if s[1] == '\\' then Some(('\\', s[2..]))
      else if s[1] == '/' then Some(('/', s[2..]))
      else if s[1] == 'b' then Some(('\U{8}', s[2..]))
      else if s[1] == 'f' then Some(('\U{C}', s[2..]))
      else if s[1] == 'n' then Some(('\n', s[2..]))
      else if s[1] == 'r' then Some(('\r', s[2..]))
      else if s[1] == 't' then Some(('\t', s[2..]))
      else if s[1] == 'u' && |s| >= 6 && IsJsonHexDigit(s[2]) && IsJsonHexDigit(s[3])
              && IsJsonHexDigit(s[4]) && IsJsonHexDigit(s[5]) then
        var v := ((JsonHexValue(s[2]) * 16 + JsonHexValue(s[3])) * 16 + JsonHexValue(s[4])) * 16
                 + JsonHexValue(s[5]);
        if 0xD800 <= v < 0xE000 then None else Some((v as char, s[6..]))
      else None
    else if s[0] < ' ' then None
    else Some((s[0], s[1..]))
  }

  /** A JSON string body up to and including its closing quote. */
  function ParseChars(s: string): (r: Option<(string, string)>)
    ensures r.Some? ==> |r.value.1| < |s|
    decreases |s|
  {
    if s == [] then None
    else if s[0] == '"' then Some(([], s[1..]))
    else
      var (c, rest) :- ParseChar(s);
      var (cs, rest') :- ParseChars(rest);
      Some(([c] + cs, rest'))
  }

  function ParseString(s: string): (r: Option<(string, string)>)
    ensures r.Some? ==> |r.value.1| < |s|
  {
    if s == [] || s[0] != '"' then None else ParseChars(s[1..])
  }

  lemma ParseCharOfEscape(c: char, tail: string)
    ensures ParseChar(EscapeChar(c) + tail) == Some((c, tail))
  {
    var e := EscapeChar(c);
    var s := e + tail;
    if c < ' ' && c != '\U{8}' && c != '\t' && c != '\n' && c != '\U{C}' && c != '\r' {
      var hi, lo := c as int / 16, c as int % 16;
      assert s[..6] == ['\\', 'u', '0', '0', Hex.Digit(hi), Hex.Digit(lo)];
      assert s[6..] == tail;
      assert JsonHexValue(Hex.Digit(hi)) == hi && JsonHexValue(Hex.Digit(lo)) == lo;
    } else if |e| == 2 {
      assert s[2..] == tail;
    } else {
      assert s[1..] == tail;
    }
  }

  lemma {:induction false} ParseCharsOfEscape(cs: string, tail: string)
    ensures ParseChars(EscapeAll(cs) + ("\"" + tail)) == Some((cs, tail))
  {
    var s := EscapeAll(cs) + ("\"" + tail);
    if cs == [] {
      assert s[1..] == tail;
    } else {
      var after := EscapeAll(cs[1..]) + ("\"" + tail);
      assert s == EscapeChar(cs[0]) + after;
      ParseCharOfEscape(cs[0], after);
      ParseCharsOfEscape(cs[1..], tail);
      assert [cs[0]] + cs[1..] == cs;
    }
  }

  lemma ParseStringOfQuote(cs: string, tail: string)
    ensures ParseString(Quote(cs) + tail) == Some((cs, tail))
  {
    var s := Quote(cs) + tail;
    assert s[1..] == EscapeAll(cs) + ("\"" + tail);
    ParseCharsOfEscape(cs, tail);
  }

  // ----- the record -----------------------------------------------------

  /** Consumes the literal `lit` at the front of `s`. */
  function Expect(lit: string, s: string): (r: Option<string>)
    ensures r.Some? ==> s == lit + r.value
  {
    if |lit| <= |s| && s[..|lit|] == lit then Some(s[|lit|..]) else None
  }

  lemma ExpectLiteral(lit: string, tail: string)
    ensures Expect(lit, lit + tail) == Some(tail)
  {
    assert (lit + tail)[..|lit|] == lit && (lit + tail)[|lit|..] == tail;
  }

  /** `JSON.stringify(package)`: the members in creation order. */
  function Stringify(p: Package): (r: string)
    ensures |r| > 8 && r[..8] == "{\"salt\":" && r[|r| - 1] == '}'
  {
    "{\"salt\":" + (ArrayText(p.salt) +
    (",\"iv\":" + (ArrayText(p.iv) +
    (",\"data\":" + (ArrayText(p.data) +
    (",\"hash\":" + (Quote(p.hash) +
    (",\"password\":" + (Quote(p.password) + "}")))))))))
  }

  /** `JSON.parse(text)` for a text of the layout `Stringify` writes. */
  function Parse(text: string): (r: Option<Package>)
    ensures r.Some? ==> |text| > 8 && text[..8] == "{\"salt\":"
  {
    var s1 :- Expect("{\"salt\":", text);
    var (salt, s2) :- ParseArray(s1);
    var s3 :- Expect(",\"iv\":", s2);
    var (iv, s4) :- ParseArray(s3);
    var s5 :- Expect(",\"data\":", s4);
    var (data, s6) :- ParseArray(s5);
    var s7 :- Expect(",\"hash\":", s6);
    var (hash, s8) :- ParseString(s7);
    var s9 :- Expect(",\"password\":", s8);
    var (password, s10) :- ParseString(s9);
    if s10 == "}" then Some(Package(salt, iv, data, hash, password)) else None
  }

  /** The reader returns every record the writer writes, member for
      member. */
  lemma ParseStringify(p: Package)
    ensures Parse(Stringify(p)) == Some(p)
  {
    var t1 := Quote(p.password) + "}";
    var t2 := ",\"password\":" + t1;
    var t3 := Quote(p.hash) + t2;
    var t4 := ",\"hash\":" + t3;
    var t5 := ArrayText(p.data) + t4;
    var t6 := ",\"data\":" + t5;
    var t7 := ArrayText(p.iv) + t6;
    var t8 := ",\"iv\":" + t7;
    var t9 := ArrayText(p.salt) + t8;
    assert Stringify(p) == "{\"salt\":" + t9;
    ExpectLiteral("{\"salt\":", t9);
    ParseArrayOfText(p.salt, t8);
    ExpectLiteral(",\"iv\":", t7);
    ParseArrayOfText(p.iv, t6);
    ExpectLiteral(",\"data\":", t5);
    ParseArrayOfText(p.data, t4);
    ExpectLiteral(",\"hash\":", t3);
    ParseStringOfQuote(p.hash, t2);
    ExpectLiteral(",\"password\":", t1);
    ParseStringOfQuote(p.password, "}");
  }

  // ----- which records btoa accepts ---------------------------------------

  lemma Latin1Concat(a: string, b: string)
    ensures Base64.IsLatin1(a + b) <==> Base64.IsLatin1(a) && Base64.IsLatin1(b)
  {
    if Base64.IsLatin1(a + b) {
      forall i | 0 <= i < |a| ensures a[i] as int < 256 {
        assert (a + b)[i] == a[i];
      }
      forall i | 0 <= i < |b| ensures b[i] as int < 256 {
        assert (a + b)[|a| + i] == b[i];
      }
    }
  }

  lemma EscapeCharLatin1(c: char)
    ensures Base64.IsLatin1(EscapeChar(c)) <==> c as int < 256
  {
    var e := EscapeChar(c);
    if c < ' ' || c == '"' || c == '\\' {
      assert forall i :: 0 <= i < |e| ==> e[i] as int < 128;
    } else {
      assert e == [c];
    }
  }

  lemma {:induction false} EscapeAllLatin1(s: string)
    ensures Base64.IsLatin1(EscapeAll(s)) <==> Base64.IsLatin1(s)
  {
    if s != [] {
      EscapeAllLatin1(s[1..]);
      EscapeCharLatin1(s[0]);
      Latin1Concat(EscapeChar(s[0]), EscapeAll(s[1..]));
      Latin1Concat([s[0]], s[1..]);
      assert s == [s[0]] + s[1..];
    }
  }

  lemma QuoteLatin1(s: string)
    ensures Base64.IsLatin1(Quote(s)) <==> Base64.IsLatin1(s)
  {
    EscapeAllLatin1(s);
    Latin1Concat(EscapeAll(s), "\"");
    Latin1Concat("\"", EscapeAll(s) + "\"");
  }

  lemma NumberTextAscii(n: int)
    ensures Base64.IsLatin1(NumberText(n))
  {
    var d := NatToDecimal(if n < 0 then -n else n);
    assert Base64.IsLatin1(d);
    Latin1Concat("-", d);
  }

  lemma {:induction false} ElementsAscii(xs: seq<int>)
    ensures Base64.IsLatin1(Elements(xs))
  {
    if xs != [] {
      NumberTextAscii(xs[0]);
      if |xs| > 1 {
        ElementsAscii(xs[1..]);
        Latin1Concat(",", Elements(xs[1..]));
        Latin1Concat(NumberText(xs[0]), "," + Elements(xs[1..]));
      }
    }
  }

  lemma ArrayTextAscii(xs: seq<int>)
    ensures Base64.IsLatin1(ArrayText(xs))
  {
    ElementsAscii(xs);
    Latin1Concat(Elements(xs), "]");
    Latin1Concat("[", Elements(xs) + "]");
  }

  /** A member name and an ASCII value in front of the rest of a record do
      not change whether the text is Latin-1. */
  lemma Latin1Member(name: string, xs: seq<int>, rest: string)
    requires Base64.IsLatin1(name)
    ensures Base64.IsLatin1(name + (ArrayText(xs) + rest)) <==> Base64.IsLatin1(rest)
  {
    ArrayTextAscii(xs);
    Latin1Concat(ArrayText(xs), rest);
    Latin1Concat(name, ArrayText(xs) + rest);
  }

  /** The same for a member whose value is a string. */
  lemma Latin1StringMember(name: string, cs: string, rest: string)
    requires Base64.IsLatin1(name)
    ensures Base64.IsLatin1(name + (Quote(cs) + rest)) <==>
              Base64.IsLatin1(cs) && Base64.IsLatin1(rest)
  {
    QuoteLatin1(cs);
    Latin1Concat(Quote(cs), rest);
    Latin1Concat(name, Quote(cs) + rest);
  }

  /** The member names `Stringify` writes are ASCII. */
  lemma NamesAscii()
    ensures Base64.IsLatin1("{\"salt\":") && Base64.IsLatin1(",\"iv\":")
    ensures Base64.IsLatin1(",\"data\":") && Base64.IsLatin1(",\"hash\":")
    ensures Base64.IsLatin1(",\"password\":")
  {
  }

  /** The JSON text of a record is a Latin-1 string, which `btoa` accepts,
      exactly when its `hash` and `password` are: every other character it
      holds is ASCII. */
  lemma StringifyLatin1(p: Package)
    ensures Base64.IsLatin1(Stringify(p)) <==>
              Base64.IsLatin1(p.hash) && Base64.IsLatin1(p.password)
  {
    var t1 := Quote(p.password) + "}";
    var t2 := ",\"password\":" + t1;
    var t4 := ",\"hash\":" + (Quote(p.hash) + t2);
    var t6 := ",\"data\":" + (ArrayText(p.data) + t4);
    var t8 := ",\"iv\":" + (ArrayText(p.iv) + t6);
    assert Stringify(p) == "{\"salt\":" + (ArrayText(p.salt) + t8);
    NamesAscii();
    Latin1Member("{\"salt\":", p.salt, t8);
    Latin1Member(",\"iv\":", p.iv, t6);
    Latin1Member(",\"data\":", p.data, t4);
    Latin1StringMember(",\"hash\":", p.hash, t2);
    Latin1StringMember(",\"password\":", p.password, "}");
    assert t2 == ",\"password\":" + (Quote(p.password) + "}");
  }
}
