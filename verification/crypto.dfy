/** CryptoManager: password-based AES-256-GCM encryption of a text into an
    `{salt, iv, data, hash, password}` record, its decryption with an
    integrity check, and the base64 JSON form the record is shared in.

    The randomness `crypto.getRandomValues` supplies is a parameter
    `entropy`, read front to back: 32 octets for a generated password (only
    when one is needed), then 16 for the salt, then 12 for the IV. A stream
    too short for what is drawn stands for a random source that throws. */
module CryptoManager {
  import opened Wrappers
  import opened Bytes
  import opened EncryptedPackage
  import opened WebCrypto
  import Utf8
  import Hex
  import Base64
  import PackageJson

  const Upper := "ABCDEFGHIJKLMNOPQRSTUVWXYZ"
  const Lower := "abcdefghijklmnopqrstuvwxyz"
  const Digits := "0123456789"
  const Symbols := "!@#$%^&*"
  /** The alphabet of generated passwords, 70 characters, in this order. */
  const Chars: string := Upper + Lower + Digits + Symbols
  const PasswordLength: nat := 32
  const SaltLength: nat := 16
  const IvLength: nat := 12
  /** PBKDF2 iteration count and AES key length in bits. */
  const Iterations: nat := 100000
  const KeyLength: nat := 256

  const EncryptError := "Failed to encrypt data"
  const DecryptError := "Failed to decrypt data"
  /** The name of the exception `JSON.parse` throws on text it rejects. */
  const SyntaxError := "SyntaxError"

  // ----- password generation ----------------------------------------------

  /** The password the random octets `values` map to: octet `i` picks
      character `values[i] % 70` of the alphabet. */
  function PasswordOf(values: seq<byte>): string {
    seq(|values|, i requires 0 <= i < |values| => Chars[values[i] as int % |Chars|])
  }

  /** `generateRandomPassword(values.length)`, where `values` are the octets
      `crypto.getRandomValues` wrote into the array: one alphabet character
      per octet, appended in order. The modulo bias of `% 70` is kept. */
  method GenerateRandomPassword(values: seq<byte>) returns (password: string)
    ensures |password| == |values|
    ensures forall i :: 0 <= i < |values| ==> password[i] == Chars[values[i] as int % |Chars|]
    ensures forall i :: 0 <= i < |password| ==> password[i] in Chars
  {
    password := "";
    var i := 0;
    while i < |values|
      invariant 0 <= i <= |values|
      invariant |password| == i
      invariant forall j :: 0 <= j < i ==> password[j] == Chars[values[j] as int % |Chars|]
    {
      password := password + [Chars[values[i] as int % |Chars|]];
      i := i + 1;
    }
  }

  /** The alphabet is printable ASCII. */
  lemma CharsArePrintable()
    ensures |Chars| == 70
    ensures forall c :: c in Chars ==> ' ' < c < '\U{7F}'
  {
    assert forall c :: c in Upper ==> 'A' <= c <= 'Z' by { UpperIsRange(); }
    assert forall c :: c in Lower ==> 'a' <= c <= 'z' by { LowerIsRange(); }
    assert forall c :: c in Digits ==> '0' <= c <= '9' by { DigitsIsRange(); }
    assert forall c :: c in Symbols ==> ' ' < c < '\U{7F}' by { SymbolsArePrintable(); }
  }

  lemma UpperIsRange() ensures forall c :: c in Upper ==> 'A' <= c <= 'Z' { }
  lemma LowerIsRange() ensures forall c :: c in Lower ==> 'a' <= c <= 'z' { }
  lemma DigitsIsRange() ensures forall c :: c in Digits ==> '0' <= c <= '9' { }
  lemma SymbolsArePrintable() ensures forall c :: c in Symbols ==> ' ' < c < '\U{7F}' { }

  /** Every generated password is printable ASCII, so `btoa` accepts it. */
  lemma PasswordIsAscii(values: seq<byte>)
    ensures |PasswordOf(values)| == |values|
    ensures forall i :: 0 <= i < |values| ==> PasswordOf(values)[i] in Chars
    ensures Base64.IsLatin1(PasswordOf(values))
  {
    CharsArePrintable();
    var pw := PasswordOf(values);
    forall i | 0 <= i < |values| ensures pw[i] as int < 256 {
      assert pw[i] in Chars;
    }
  }

  // ----- hashing ------------------------------------------------------------

  /** `generateHash(text)`: SHA-256 of the UTF-8 octets of `text`, as
      lower-case hex, two digits per octet. */
  function GenerateHash(p: Provider, text: string): (r: string)
    ensures |r| == 2 * |p.sha256(Utf8.Encode(text))|
  {
    Hex.Encode(p.sha256(Utf8.Encode(text)))
  }

  /** A hash is 64 lower-case hex digits, and reading them back gives the
      digest. */
  lemma HashIsHexDigest(p: Provider, text: string)
    requires Sound(p)
    ensures |GenerateHash(p, text)| == 64
    ensures forall j :: 0 <= j < 64 ==> Hex.IsDigit(GenerateHash(p, text)[j])
    ensures Hex.Decode(GenerateHash(p, text)) == Some(p.sha256(Utf8.Encode(text)))
  {
    var d := p.sha256(Utf8.Encode(text));
    Hex.EncodeIsLowerHex(d);
    Hex.DecodeEncode(d);
  }

  /** A hash is ASCII. */
  lemma HashIsLatin1(p: Provider, text: string)
    ensures Base64.IsLatin1(GenerateHash(p, text))
  {
    var d := p.sha256(Utf8.Encode(text));
    Hex.EncodeIsLowerHex(d);
  }

  // ----- encryption -----------------------------------------------------------

  /** `password || ...`: a supplied password is used when it is a non-empty
      string. */
  predicate Truthy(password: Option<string>) {
    password.Some? && password.value != ""
  }

  /** Where the salt starts in the random stream. */
  function SaltOffset(password: Option<string>): nat {
    if Truthy(password) then 0 else PasswordLength
  }

  /** The octets `encrypt` draws before deriving its key. */
  function RandomNeeded(password: Option<string>): nat {
    SaltOffset(password) + SaltLength + IvLength
  }

  /** The password `encrypt` uses. */
  function UsedPassword(password: Option<string>, entropy: seq<byte>): string
    requires |entropy| >= SaltOffset(password)
  {
    if Truthy(password) then password.value else PasswordOf(entropy[..PasswordLength])
  }

  function SaltOf(password: Option<string>, entropy: seq<byte>): (salt: seq<byte>)
    requires |entropy| >= RandomNeeded(password)
    ensures |salt| == SaltLength
  {
    entropy[SaltOffset(password)..SaltOffset(password) + SaltLength]
  }

  function IvOf(password: Option<string>, entropy: seq<byte>): (iv: seq<byte>)
    requires |entropy| >= RandomNeeded(password)
    ensures |iv| == IvLength
  {
    entropy[SaltOffset(password) + SaltLength..RandomNeeded(password)]
  }

  /** `deriveKey(password, salt)`: PBKDF2 with SHA-256 and 100000
      iterations over the UTF-8 octets of the password, giving a 256-bit
      AES-GCM key. */
  function DeriveKey(p: Provider, password: string, salt: seq<byte>): (key: Option<CryptoKey>)
    ensures key == p.pbkdf2(Utf8.Encode(password), salt, 100000, 256)
  {
    p.pbkdf2(Utf8.Encode(password), salt, Iterations, KeyLength)
  }

  /** Distinct passwords give PBKDF2 distinct inputs: the UTF-8 encoding
      loses nothing. */
  lemma DeriveKeyInputIsInjective(password1: string, password2: string)
    ensures Utf8.Encode(password1) == Utf8.Encode(password2) ==> password1 == password2
  {
    Utf8.DecodeFromEncode(password1);
    Utf8.DecodeFromEncode(password2);
  }

  /** What `encrypt(plaintext, password)` returns or throws. */
  function Encryption(p: Provider, plaintext: string, password: Option<string>, entropy: seq<byte>)
    : (r: Result<Package>)
    ensures r.Err? ==> r.error == EncryptError
    ensures r.Err? <==>
      |entropy| < RandomNeeded(password) ||
      DeriveKey(p, UsedPassword(password, entropy), SaltOf(password, entropy)).None? ||
      p.aesGcmEncrypt(DeriveKey(p, UsedPassword(password, entropy), SaltOf(password, entropy)).value,
                      IvOf(password, entropy), Utf8.Encode(plaintext)).None?
    ensures r.Ok? ==>
      r.value.password == UsedPassword(password, entropy) &&
      (Truthy(password) ==> r.value.password == password.value) &&
      (!Truthy(password) ==> |r.value.password| == PasswordLength)
    ensures r.Ok? ==>
      |r.value.salt| == SaltLength && |r.value.iv| == IvLength &&
      (forall i :: 0 <= i < |r.value.salt| ==> 0 <= r.value.salt[i] < 256) &&
      (forall i :: 0 <= i < |r.value.iv| ==> 0 <= r.value.iv[i] < 256) &&
      (forall i :: 0 <= i < |r.value.data| ==> 0 <= r.value.data[i] < 256)
    ensures r.Ok? ==>
      ToUint8Array(r.value.salt) == SaltOf(password, entropy) &&
      ToUint8Array(r.value.iv) == IvOf(password, entropy)
    ensures r.Ok? ==> r.value.hash == GenerateHash(p, plaintext)
    ensures r.Ok? ==>
      var key := DeriveKey(p, r.value.password, SaltOf(password, entropy));
      key.Some? &&
      var ct := p.aesGcmEncrypt(key.value, IvOf(password, entropy), Utf8.Encode(plaintext));
      ct.Some? && ToUint8Array(r.value.data) == ct.value
    ensures r.Ok? ==>
      var key := DeriveKey(p, r.value.password, ToUint8Array(r.value.salt));
      key.Some? &&
      (Sound(p) ==> p.aesGcmDecrypt(key.value, ToUint8Array(r.value.iv), ToUint8Array(r.value.data))
                    == Some(Utf8.Encode(plaintext)))
  {
    if |entropy| < RandomNeeded(password) then Err(EncryptError)
    else
      var pw := UsedPassword(password, entropy);
      var salt := SaltOf(password, entropy);
      var iv := IvOf(password, entropy);
      match DeriveKey(p, pw, salt)
      case None => Err(EncryptError)
      case Some(key) =>
        match p.aesGcmEncrypt(key, iv, Utf8.Encode(plaintext))
        case None => Err(EncryptError)
        case Some(ct) =>
          ToUint8ArrayOfNumbers(salt);
          ToUint8ArrayOfNumbers(iv);
          ToUint8ArrayOfNumbers(ct);
          Ok(Package(ToNumbers(salt), ToNumbers(iv), ToNumbers(ct), GenerateHash(p, plaintext), pw))
  }

  /** `encrypt(plaintext, password)`, step by step. */
  method Encrypt(p: Provider, plaintext: string, password: Option<string>, entropy: seq<byte>)
    returns (r: Result<Package>)
    ensures r == Encryption(p, plaintext, password, entropy)
  {
    var actualPassword: string;
    var next: nat := 0;
    if Truthy(password) {
      actualPassword := password.value;
    } else {
      if |entropy| < PasswordLength {
        return Err(EncryptError);
      }
      actualPassword := GenerateRandomPassword(entropy[..PasswordLength]);
      next := PasswordLength;
    }
    if |entropy| < next + SaltLength + IvLength {
      return Err(EncryptError);
    }
    assert actualPassword == UsedPassword(password, entropy);
    var salt := entropy[next..next + SaltLength];
    var iv := entropy[next + SaltLength..next + SaltLength + IvLength];
    assert salt == SaltOf(password, entropy) && iv == IvOf(password, entropy);
    var key := DeriveKey(p, actualPassword, salt);
    if key.None? {
      return Err(EncryptError);
    }
    var encryptedData := p.aesGcmEncrypt(key.value, iv, Utf8.Encode(plaintext));
    if encryptedData.None? {
      return Err(EncryptError);
    }
    var dataHash := GenerateHash(p, plaintext);
    r := Ok(Package(ToNumbers(salt), ToNumbers(iv), ToNumbers(encryptedData.value), dataHash, actualPassword));
  }

  // ----- decryption -----------------------------------------------------------

  /** What `decrypt(pkg, password)` returns or throws, with a text decoder
      that keeps (`ignoreBom`) or drops a leading U+FEFF. Only `salt`, `iv`,
      `data` and `hash` are read; every failure has the same message. */
  function DecryptWith(p: Provider, pkg: Package, password: string, ignoreBom: bool): (r: Result<string>)
    ensures r.Err? ==> r.error == DecryptError
    ensures r.Err? <==>
      var key := DeriveKey(p, password, ToUint8Array(pkg.salt));
      key.None? ||
      var pt := p.aesGcmDecrypt(key.value, ToUint8Array(pkg.iv), ToUint8Array(pkg.data));
      pt.None? || GenerateHash(p, Utf8.Decode(pt.value, ignoreBom)) != pkg.hash
    ensures r.Ok? ==> GenerateHash(p, r.value) == pkg.hash
    ensures r.Ok? ==>
      var key := DeriveKey(p, password, ToUint8Array(pkg.salt));
      key.Some? &&
      var pt := p.aesGcmDecrypt(key.value, ToUint8Array(pkg.iv), ToUint8Array(pkg.data));
      pt.Some? && r.value == Utf8.Decode(pt.value, ignoreBom)
  {
    match DeriveKey(p, password, ToUint8Array(pkg.salt))
    case None => Err(DecryptError)
    case Some(key) =>
      match p.aesGcmDecrypt(key, ToUint8Array(pkg.iv), ToUint8Array(pkg.data))
      case None => Err(DecryptError)
      case Some(pt) =>
        var text := Utf8.Decode(pt, ignoreBom);
        if GenerateHash(p, text) != pkg.hash then Err(DecryptError) else Ok(text)
  }

  /** `decrypt(pkg, password)`, step by step, with the decoder
      `new TextDecoder()` builds, which drops a leading U+FEFF. */
  method Decrypt(p: Provider, pkg: Package, password: string) returns (r: Result<string>)
    ensures r == DecryptWith(p, pkg, password, false)
  {
    var key := DeriveKey(p, password, ToUint8Array(pkg.salt));
    if key.None? {
      return Err(DecryptError);
    }
    var decryptedData := p.aesGcmDecrypt(key.value, ToUint8Array(pkg.iv), ToUint8Array(pkg.data));
    if decryptedData.None? {
      return Err(DecryptError);
    }
    var plaintext := Utf8.Decode(decryptedData.value, false);
    var computedHash := GenerateHash(p, plaintext);
    if computedHash != pkg.hash {
      return Err(DecryptError);
    }
    r := Ok(plaintext);
  }

  /** Decryption reads neither the record's `password` member nor anything
      but `salt`, `iv`, `data` and `hash`. */
  lemma DecryptIgnoresPasswordMember(p: Provider, pkg: Package, other: string, password: string, ignoreBom: bool)
    ensures DecryptWith(p, pkg.(password := other), password, ignoreBom) == DecryptWith(p, pkg, password, ignoreBom)
  {
  }

  /** What an encryption made is decrypted with its own password to the
      original text. */
  lemma DecryptEncryption(p: Provider, plaintext: string, password: Option<string>, entropy: seq<byte>)
    requires Sound(p)
    requires Encryption(p, plaintext, password, entropy).Ok?
    ensures DecryptWith(p, Encryption(p, plaintext, password, entropy).value,
                        Encryption(p, plaintext, password, entropy).value.password, true) == Ok(plaintext)
  {
    Utf8.DecodeEncodeKeepingBom(plaintext);
  }

  /** With the decoder `decrypt` actually constructs, the round trip holds
      for every text that does not begin with U+FEFF. */
  lemma DecryptEncryptionDefaultDecoder(p: Provider, plaintext: string, password: Option<string>, entropy: seq<byte>)
    requires Sound(p)
    requires Encryption(p, plaintext, password, entropy).Ok?
    requires plaintext == [] || plaintext[0] != Utf8.Bom
    ensures DecryptWith(p, Encryption(p, plaintext, password, entropy).value,
                        Encryption(p, plaintext, password, entropy).value.password, false) == Ok(plaintext)
  {
    Utf8.DecodeEncodeDefault(plaintext);
  }

  /** With the decoder `decrypt` actually constructs, a text that begins
      with U+FEFF never comes back: decryption fails, or (only if SHA-256
      collides) returns the text without its first character. */
  lemma BomTextDoesNotRoundTrip(p: Provider, plaintext: string, password: Option<string>, entropy: seq<byte>)
    requires Sound(p)
    requires Encryption(p, plaintext, password, entropy).Ok?
    requires plaintext != [] && plaintext[0] == Utf8.Bom
    ensures var pkg := Encryption(p, plaintext, password, entropy).value;
            var r := DecryptWith(p, pkg, pkg.password, false);
            r != Ok(plaintext) && (r.Err? || r == Ok(plaintext[1..]))
  {
    Utf8.DecodeEncodeDefault(plaintext);
  }

  // ----- the shared form ------------------------------------------------------

  /** `packageToBase64(pkg)`: `btoa(JSON.stringify(pkg))`. It throws when the
      hash or the password holds a character above U+00FF. */
  function PackageToBase64(pkg: Package): (r: Result<string>)
    ensures r.Ok? <==> Base64.IsLatin1(pkg.hash) && Base64.IsLatin1(pkg.password)
    ensures r.Err? ==> r.error == Base64.InvalidCharacterError
  {
    PackageJson.StringifyLatin1(pkg);
    Base64.Btoa(PackageJson.Stringify(pkg))
  }

  /** `base64ToPackage(s)`: `JSON.parse(atob(s))`. */
  function Base64ToPackage(s: string): (r: Result<Package>)
    ensures r.Err? ==> r.error == Base64.InvalidCharacterError || r.error == SyntaxError
    ensures Base64.Atob(s).Err? ==> r == Err(Base64.InvalidCharacterError)
  {
    var text :- Base64.Atob(s);
    match PackageJson.Parse(text)
    case None => Err(SyntaxError)
    case Some(pkg) => Ok(pkg)
  }

  /** Reading back the shared form of a record gives the record, member for
      member. */
  lemma Base64ToPackageOfPackageToBase64(pkg: Package)
    requires PackageToBase64(pkg).Ok?
    ensures Base64ToPackage(PackageToBase64(pkg).value) == Ok(pkg)
  {
    var text := PackageJson.Stringify(pkg);
    PackageJson.StringifyLatin1(pkg);
    Base64.AtobBtoa(text);
    PackageJson.ParseStringify(pkg);
  }

  /** Every record `encrypt` makes has a shared form, unless the caller
      supplied a password with a character above U+00FF. */
  lemma EncryptionIsExportable(p: Provider, plaintext: string, password: Option<string>, entropy: seq<byte>)
    requires Encryption(p, plaintext, password, entropy).Ok?
    requires Truthy(password) ==> Base64.IsLatin1(password.value)
    ensures PackageToBase64(Encryption(p, plaintext, password, entropy).value).Ok?
  {
    HashIsLatin1(p, plaintext);
    if !Truthy(password) {
      PasswordIsAscii(entropy[..PasswordLength]);
    }
  }
}
