# LumaQR encryption core, modelled in Dafny

LumaQR (Cryptixel) turns a text into an encrypted record and shows that record
as a 3D particle "QR code". The record can also be shared as a base64 string
and read back with the password. This project models the part with logic:

- **CryptoManager** (`js/crypto.js`):
  - password generation over a 70-character alphabet;
  - the SHA-256 hex hash;
  - `encrypt`: PBKDF2 with 100000 iterations, then AES-256-GCM, producing the record `{salt, iv, data, hash, password}`;
  - `decrypt`, with its hash check;
  - the `btoa(JSON.stringify(..))` shared form and its inverse.
- The state and result handling of **LumaQRGenerator** and **LumaQRScanner** (`js/qr-generator.js`).

Files and modules:

| file | module | models |
|---|---|---|
| `common.dfy` | `Wrappers`, `Bytes`, `EncryptedPackage` | `Option`/`Result`; octets and `Uint8Array` conversion; the record |
| `utf8.dfy` | `Utf8` | `TextEncoder`, and the WHATWG UTF-8 `TextDecoder` with its BOM handling |
| `hex.dfy` | `Hex` | `b.toString(16).padStart(2, '0')`, joined; a hex reader as its inverse |
| `base64.dfy` | `Base64` | `btoa` (section 4 of RFC 4648) and `atob` (forgiving-base64 of the WHATWG Infra Standard) |
| `json.dfy` | `PackageJson` | `JSON.stringify` of the record (RFC 8259 text in ECMA-262 layout), and a reader for that layout |
| `webcrypto.dfy` | `WebCrypto` | the Web Crypto primitives, as parameters |
| `crypto.dfy` | `CryptoManager` | the CryptoManager class |
| `qr_generator.dfy` | `QrGenerator`, `QrScanner` | LumaQRGenerator as a class with its two fields; LumaQRScanner as functions |

Modelling choices:

- **Web Crypto.** The browser's primitives are a `Provider` value: PBKDF2 key derivation, AES-GCM encryption and decryption, and the SHA-256 digest, as total functions. `Sound(p)` assumes exactly two things about them:
  - a digest is 32 octets;
  - AES-GCM decryption under the same key and IV returns what was encrypted.
- **Randomness.** The output of `crypto.getRandomValues` is an input stream `entropy`. It is read in the order `encrypt` draws from it:
  - 32 octets for a generated password, only when no usable password was supplied;
  - then a 16-octet salt;
  - then a 12-octet IV.
- **The record's arrays.** `salt`, `iv` and `data` hold plain numbers, as `Array.from` makes them. Decryption reads them back with ToUint8 (modulo 256), as `new Uint8Array` does.
- **Imperative and functional forms.** `generateRandomPassword`, `encrypt` and `decrypt` are methods. Each is proved equal to a specification function: `PasswordOf`, `Encryption` and `DecryptWith`. The lemmas are stated about those functions. LumaQRGenerator is a class whose methods update `currentEncryptedData` and `currentQRSystem`.

Under `Sound`, the model proves:

- the round trip `decrypt(encrypt(t, pw), usedPassword) == t` for every text `t` that does not begin with U+FEFF (a text that does never comes back; see "## Findings");
- `decrypt` never returns a text whose hash differs from the record's;
- reading back the shared form gives the record member for member;
- a shared record scans back to its text, again for every text that does not begin with U+FEFF.

Sharing fails only when the caller supplied a password with a character above U+00FF. The password is stored in the record, so `btoa` rejects that record.

## Model

| member | source | states |
|---|---|---|
| `CryptoManager.GenerateRandomPassword` | js/crypto.js:9-19 | one character per random octet, in order; character `i` is `chars[array[i] % 70]`, so every character is in the alphabet |
| `CryptoManager.PasswordIsAscii` | js/crypto.js:10-17 | a generated password has the requested length, draws only from the alphabet and is printable ASCII, hence accepted by `btoa` |
| `CryptoManager.CharsArePrintable` | js/crypto.js:10 | the alphabet has 70 characters, all printable ASCII |
| `CryptoManager.GenerateHash` | js/crypto.js:49-54 | the hash text has two characters per digest octet |
| `CryptoManager.HashIsHexDigest` | js/crypto.js:49-54 | a hash is 64 lower-case hex digits, and hex-decoding it gives back the SHA-256 digest of the UTF-8 text |
| `CryptoManager.HashIsLatin1` | js/crypto.js:51-53 | a hash is ASCII |
| `Hex.ByteToHexDigits` | js/crypto.js:52 | `b.toString(16).padStart(2, '0')` is the high nibble and then the low nibble, as lower-case digits, zero-padded |
| `Hex.EncodeIsNibbles` | js/crypto.js:51-53 | the joined text agrees with a position-by-position description of it: character `2i` is the high nibble of octet `i`, character `2i+1` its low nibble |
| `Hex.EncodeAt` | js/crypto.js:51-53 | octet `i` of the digest becomes characters `2i` and `2i+1` of the joined text |
| `Hex.EncodeIsLowerHex` | js/crypto.js:51-53 | every character of the hash text is `0-9` or `a-f` |
| `Hex.DecodeEncode` | js/crypto.js:51-53 | hex-decoding the hash text returns the digest octets |
| `Hex.EncodeDecode` | js/crypto.js:51-53 | every text that hex-decodes is the encoding of what it decodes to, so encoding is a bijection onto well-formed hex |
| `CryptoManager.DeriveKey` | js/crypto.js:21-46 | the key is PBKDF2 over the UTF-8 octets of the password with the given salt, 100000 iterations, 256 bits |
| `CryptoManager.DeriveKeyInputIsInjective` | js/crypto.js:24 | distinct passwords give PBKDF2 distinct inputs: the UTF-8 encoding of the password loses nothing |
| `CryptoManager.Encryption` | js/crypto.js:57-97 | the error cases: a random source that throws, a failed key derivation, or a failed AES-GCM encryption, all with message 'Failed to encrypt data'. On success: the supplied password if truthy, else a 32-character generated one, stored in `password`; 16 salt and 12 IV values in 0..255, taken from the random stream after the password; `data` holds the octets of the AES-GCM output under the derived key and the IV; `hash` is the hash of the plaintext; `data` decrypts, under the key derived from `password` and `salt` and under the IV, to the UTF-8 plaintext |
| `CryptoManager.Encrypt` | js/crypto.js:57-97 | the step-by-step encryption (password, salt, IV, key, AES-GCM, hash, record) returns exactly `Encryption` |
| `CryptoManager.DecryptWith` | js/crypto.js:100-131 | fails exactly when key derivation fails, AES-GCM decryption fails, or the hash of the decoded text differs from the record's `hash`; every failure has the message 'Failed to decrypt data'; a success is the decoded AES-GCM plaintext under the key derived from the given password and the record's salt, and its hash equals the record's `hash` |
| `CryptoManager.Decrypt` | js/crypto.js:100-131 | the step-by-step decryption (key, AES-GCM, decode, hash check) returns exactly `DecryptWith` with the default decoder, which drops a leading U+FEFF |
| `CryptoManager.DecryptIgnoresPasswordMember` | js/crypto.js:102 | decryption does not depend on the record's `password` member |
| `CryptoManager.DecryptEncryption` | js/crypto.js:57-131 | with a decoder that keeps a leading U+FEFF (the corrected program), decrypting a record `encrypt` made, with the password stored in it, returns the original text for every text |
| `CryptoManager.DecryptEncryptionDefaultDecoder` | js/crypto.js:57-131 | with the default `TextDecoder` that `decrypt` uses, the round trip holds for every text not starting with U+FEFF |
| `CryptoManager.BomTextDoesNotRoundTrip` | js/crypto.js:118 | with the default `TextDecoder`, a text starting with U+FEFF never decrypts to itself: decryption fails, or (only under a SHA-256 collision) returns the text without its first character |
| `CryptoManager.PackageToBase64` | js/crypto.js:134-136 | succeeds exactly when `hash` and `password` are Latin-1; otherwise throws InvalidCharacterError |
| `CryptoManager.Base64ToPackage` | js/crypto.js:139-141 | an `atob` failure is InvalidCharacterError; any other failure is the `JSON.parse` SyntaxError |
| `CryptoManager.Base64ToPackageOfPackageToBase64` | js/crypto.js:134-141 | `base64ToPackage(packageToBase64(pkg)) == pkg` member for member, whenever `packageToBase64` succeeds |
| `CryptoManager.EncryptionIsExportable` | js/crypto.js:84-90 | every record `encrypt` makes has a shared form unless the caller supplied a password with a character above U+00FF |
| `Bytes.ToUint8` | js/crypto.js:105-114 | `new Uint8Array` stores a number modulo 256 and keeps values in 0..255 |
| `Bytes.ToUint8ArrayOfNumbers` | js/crypto.js:85-87 | `new Uint8Array(Array.from(u8))` is `u8` |
| `Utf8.DecodeEncodedChar` | js/crypto.js:4-5 | decoding the 1-4 octets of one character yields that character and returns the decoder to its initial state |
| `Utf8.DecodeFromEncode` | js/crypto.js:4-5 | the UTF-8 decoder inverts the encoder on every string |
| `Utf8.DecodeEncodeKeepingBom` | js/crypto.js:118 | a decoder that keeps the BOM returns exactly the encoded text |
| `Utf8.DecodeEncodeDefault` | js/crypto.js:5 | the default decoder returns the encoded text minus a leading U+FEFF, and the text itself otherwise |
| `Base64.Btoa` | js/crypto.js:135 | `btoa` throws InvalidCharacterError exactly when a character is above U+00FF |
| `Base64.Atob` | js/crypto.js:140 | `atob` throws InvalidCharacterError exactly when forgiving-base64 decoding fails; its result is a binary string |
| `Base64.OctetsOfSextets` | js/crypto.js:135 | regrouping the 6-bit values of the encoding into octets gives back the octets |
| `Base64.AtobBtoa` | js/crypto.js:135-140 | `atob(btoa(s)) == s` for every string `btoa` accepts |
| `PackageJson.ParseIntOfNumberText` | js/crypto.js:85-87 | the JSON text of an integral number reads back as that number |
| `PackageJson.ParseArrayOfText` | js/crypto.js:85-87 | the JSON text of an array of numbers reads back as that array |
| `PackageJson.ParseStringOfQuote` | js/crypto.js:88-89 | the JSON string literal of a text reads back as that text |
| `PackageJson.Stringify` | js/crypto.js:135 | the JSON text of a record is an object text: it starts with `{"salt":` and ends with `}` (its contents are pinned by `ParseStringify` and `StringifyLatin1`) |
| `PackageJson.Parse` | js/crypto.js:140 | a text the reader accepts starts with `{"salt":` (that it returns every record `Stringify` writes is `ParseStringify`) |
| `PackageJson.ParseStringify` | js/crypto.js:135-140 | `JSON.parse(JSON.stringify(pkg))` is `pkg`, member for member |
| `PackageJson.StringifyLatin1` | js/crypto.js:135 | the JSON text of a record is Latin-1 exactly when its `hash` and `password` are |
| `QrGenerator.LumaQRGenerator.constructor` | js/qr-generator.js:3-6 | a new generator holds no record and no particle view |
| `QrGenerator.LumaQRGenerator.GenerateQR` | js/qr-generator.js:8-40 | when `encrypt` fails: the result is `{success: false, error: 'Failed to encrypt data'}` and neither field changes. When it succeeds: the record is stored, and `getCurrentEncryptedData` returns it. If the renderer then succeeds, the result carries the record and its password, and the view shows the record. If the renderer throws, the result is its error message and the view is unchanged |
| `QrGenerator.LumaQRGenerator.GetCurrentEncryptedData` | js/qr-generator.js:150-152 | returns the stored record; by `GenerateQR`'s contract, that is the record of the last successful `generateQR` |
| `QrGenerator.LumaQRGenerator.Destroy` | js/qr-generator.js:155-160 | the view is cleared and the record kept; with no view, nothing changes, so a second call is a no-op |
| `QrGenerator.LumaQRGenerator.ExportData` | js/qr-generator.js:163-168 | 'No QR data to export' without a record; otherwise exactly `packageToBase64` of the record, whose InvalidCharacterError is not caught |
| `QrGenerator.LumaQRGenerator.ImportData` | js/qr-generator.js:171-177 | succeeds exactly when `base64ToPackage` does, with its record; every failure becomes 'Invalid QR data format' |
| `QrGenerator.ImportExportedData` | js/qr-generator.js:163-177 | what one generator exports, any generator imports as the same record |
| `QrScanner.ScanQR` | js/qr-generator.js:186-200 | success exactly when `decrypt` succeeds, with its text, whose hash matches the record's; otherwise failure with `decrypt`'s message 'Failed to decrypt data' |
| `QrScanner.ScanFromBase64` | js/qr-generator.js:203-214 | 'Invalid QR code format' when the text does not decode to a record, else the result of `scanQR`; so the only failure messages are those two |
| `QrScanner.ScanSharedEncryption` | js/qr-generator.js:203-214 | the shared form of a record `encrypt` made scans, with the stored password, to the original text, for every text not starting with U+FEFF |
| `QrScanner.ScanSharedBomText` | js/qr-generator.js:186-200 | a record of a text starting with U+FEFF never scans back to that text: the scan fails with 'Failed to decrypt data', or (only under a SHA-256 collision) returns the text without its first character |

## Left out

- Web Crypto internals (PBKDF2, AES-GCM, SHA-256) are parameters. Properties that hold only with high probability are not claimed:
  - a wrong password is rejected;
  - a tampered record is rejected;
  - hashes do not collide.
- Promises and `async`: each operation is one sequential call that returns a value or an error.
- `crypto.getRandomValues` is an input stream. The way it throws is modelled as a stream too short for what is drawn.
- `console.error` logging.
- The DOM:
  - `showLoading`, `hideLoading` and `showError`;
  - the particle renderer `QRParticleSystem` and its own `destroy()`, beyond which record a view shows;
  - `js/particles.js`, `js/scanner.js`, `js/main.js` and `js/qr-scanner-lib.js`.

  The check that the text is not empty lives in `js/main.js:71-76`, so `encrypt` accepts the empty text here too. `js/main.js` instantiates `CryptixelGenerator`, which is not part of this model.
- `CryptoManager.Base64ToPackage` accepts only the layout `JSON.stringify` writes for a record:
  - the five members in order, without whitespace;
  - integer numbers, and strings without `\u` escapes of surrogates.

  `JSON.parse` accepts more, and can return a value that is not a record. For such input the model fails with SyntaxError where the browser would go on. One case: `scanFromBase64` then reports 'Failed to decrypt data' where the model reports 'Invalid QR code format'. The exact text of `JSON.parse` error messages is engine-specific; the model uses the name SyntaxError.
- Numbers in the record are integers written in plain decimal. `JSON.stringify` switches to exponent form at 1e21, and JavaScript numbers lose precision above 2^53. Neither arises for the values 0..255 that `encrypt` writes.
- Strings are sequences of Unicode scalar values, so lone surrogates are left out:
  - `TextEncoder` would replace them with U+FFFD;
  - `JSON.stringify` would escape them.
- QrScanner.ScanSharedEncryption: promises the round trip only for texts that do not begin with U+FEFF, because `decrypt` decodes with the default `TextDecoder`, which drops that character; `QrScanner.ScanSharedBomText` states what happens to the other texts.
- `decrypt` takes a string password and a record. The conversions JavaScript applies to `null`, `undefined` or a non-object are left out.

## Findings

| source | as written | input that shows it | evidently intended | confidence | as-written member | corrected member |
|---|---|---|---|---|---|---|
| js/crypto.js:5, js/crypto.js:118-124 | `decrypt` decodes the plaintext with `new TextDecoder()`, whose default `ignoreBOM: false` removes a leading U+FEFF. The hash of the shortened text is then compared with the hash of the original | the plaintext `"\uFEFFhello"`, encrypted and then decrypted with its own password: the decoded text is `"hello"`, its hash differs from the stored one, and `decrypt` throws 'Failed to decrypt data' | every text `encrypt` accepts decrypts back to itself, as with a decoder built with `{ignoreBOM: true}` | not executed | `CryptoManager.BomTextDoesNotRoundTrip` | `CryptoManager.DecryptEncryption` |

The as-written decryption is `CryptoManager.DecryptWith` with `ignoreBom` false. It is what `CryptoManager.Decrypt`, `QrScanner.ScanQR` and `QrScanner.ScanFromBase64` use, so the model behaves as the program does. `CryptoManager.DecryptEncryptionDefaultDecoder` proves the round trip for every other text, and `QrScanner.ScanSharedBomText` shows the failure reaching the scanner. The corrected decryption is `CryptoManager.DecryptWith` with `ignoreBom` true, and `CryptoManager.DecryptEncryption` proves the round trip for it on every text. The user interface trims the text before encrypting it (js/main.js:71), which removes a leading U+FEFF, so the input arrives only through a direct call to `encrypt`.
