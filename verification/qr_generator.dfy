/** LumaQRGenerator: encrypts a text, keeps the record it made, hands it to
    the particle renderer, and exports or imports it in its shared form. */
module QrGenerator {
  import opened Wrappers
  import opened EncryptedPackage
  import opened WebCrypto
  import opened Bytes
  import CryptoManager
  import Base64

  const NoDataError := "No QR data to export"
  const InvalidFormatError := "Invalid QR data format"

  /** The 3D particle view `new QRParticleSystem(container, data)` builds
      over a record; only which record it shows is modelled. */
  datatype ParticleSystem = ParticleSystem(encryptedData: Package)

  /** The object `generateQR` resolves to: `{success: true, encryptedData,
      password}` or `{success: false, error}`. */
  datatype GenerateResult =
    | Generated(encryptedData: Package, password: string)
    | GenerateFailed(error: string)

  class LumaQRGenerator {
    /** The record of the last successful encryption; `None` stands for the
        field never having been set. */
    var currentEncryptedData: Option<Package>
    var currentQRSystem: Option<ParticleSystem>

    constructor()
      ensures currentEncryptedData == None && currentQRSystem == None
    {
      currentEncryptedData := None;
      currentQRSystem := None;
    }

    /** `generateQR(text, password, container)`. The random octets the
        encryption draws are `entropy`; `renderError` is the message of the
        exception the particle renderer throws, if it throws. The record is
        stored before rendering, so a rendering failure keeps it. */
    method GenerateQR(p: Provider, text: string, password: Option<string>, entropy: seq<byte>,
                      renderError: Option<string>)
      returns (r: GenerateResult)
      modifies this
      ensures var e := CryptoManager.Encryption(p, text, password, entropy);
        if e.Err? then
          r == GenerateFailed(CryptoManager.EncryptError) &&
          currentEncryptedData == old(currentEncryptedData) && currentQRSystem == old(currentQRSystem)
        else
          GetCurrentEncryptedData() == Some(e.value) &&
          (renderError.None? ==>
             r == Generated(e.value, e.value.password) &&
             currentQRSystem == Some(ParticleSystem(e.value))) &&
          (renderError.Some? ==>
             r == GenerateFailed(renderError.value) && currentQRSystem == old(currentQRSystem))
    {
      var encryptedData := CryptoManager.Encrypt(p, text, password, entropy);
      if encryptedData.Err? {
        return GenerateFailed(encryptedData.error);
      }
      currentEncryptedData := Some(encryptedData.value);
      if renderError.Some? {
        return GenerateFailed(renderError.value);
      }
      currentQRSystem := Some(ParticleSystem(encryptedData.value));
      r := Generated(encryptedData.value, encryptedData.value.password);
    }

    /** `getCurrentEncryptedData()`. */
    function GetCurrentEncryptedData(): (r: Option<Package>)
      reads this
      ensures r == currentEncryptedData
    {
      currentEncryptedData
    }

    /** `destroy()`: drops the particle view and keeps the record. A second
        call finds no view and changes nothing. */
    method Destroy()
      modifies this
      ensures currentQRSystem == None
      ensures currentEncryptedData == old(currentEncryptedData)
      ensures old(currentQRSystem) == None ==> unchanged(this)
    {
      if currentQRSystem.Some? {
        currentQRSystem := None;
      }
    }

    /** `exportData()`: the shared form of the stored record. An error of
        `btoa` is not caught and reaches the caller as it is. */
    function ExportData(): (r: Result<string>)
      reads this
      ensures currentEncryptedData.None? ==> r == Err(NoDataError)
      ensures currentEncryptedData.Some? ==>
                (r.Ok? <==> CryptoManager.PackageToBase64(currentEncryptedData.value).Ok?)
      ensures currentEncryptedData.Some? ==> r == CryptoManager.PackageToBase64(currentEncryptedData.value)
      ensures r.Err? ==> r.error == NoDataError || r.error == Base64.InvalidCharacterError
    {
      match currentEncryptedData
      case None => Err(NoDataError)
      case Some(pkg) => CryptoManager.PackageToBase64(pkg)
    }

    /** `importData(s)`: every failure of `base64ToPackage` becomes one
        message. */
    function ImportData(s: string): (r: Result<Package>)
      ensures r.Err? ==> r.error == InvalidFormatError
      ensures r.Ok? <==> CryptoManager.Base64ToPackage(s).Ok?
      ensures r.Ok? ==> r.value == CryptoManager.Base64ToPackage(s).value
    {
      match CryptoManager.Base64ToPackage(s)
      case Err(_) => Err(InvalidFormatError)
      case Ok(pkg) => Ok(pkg)
    }
  }

  /** What one generator exports, any generator imports as the same
      record. */
  lemma ImportExportedData(g: LumaQRGenerator, h: LumaQRGenerator)
    requires g.ExportData().Ok?
    ensures g.currentEncryptedData.Some?
    ensures h.ImportData(g.ExportData().value) == Ok(g.currentEncryptedData.value)
  {
    CryptoManager.Base64ToPackageOfPackageToBase64(g.currentEncryptedData.value);
  }
}

/** LumaQRScanner: decrypts a record, given directly or in its shared form,
    into a result object; it never throws. */
module QrScanner {
  import opened Wrappers
  import opened EncryptedPackage
  import opened WebCrypto
  import opened Bytes
  import CryptoManager
  import Base64
  import Utf8

  const InvalidCodeError := "Invalid QR code format"

  /** `{success: true, text}` or `{success: false, error}`. */
  datatype ScanResult = ScanSuccess(text: string) | ScanFailure(error: string)

  /** `scanQR(pkg, password)`: the outcome of `decrypt`, with its error
      message, as a result object. */
  function ScanQR(p: Provider, pkg: Package, password: string): (r: ScanResult)
    ensures r.ScanSuccess? <==> CryptoManager.DecryptWith(p, pkg, password, false).Ok?
    ensures r.ScanSuccess? ==> r.text == CryptoManager.DecryptWith(p, pkg, password, false).value
    ensures r.ScanSuccess? ==> CryptoManager.GenerateHash(p, r.text) == pkg.hash
    ensures r.ScanFailure? ==> r.error == CryptoManager.DecryptError
  {
    match CryptoManager.DecryptWith(p, pkg, password, false)
    case Ok(text) => ScanSuccess(text)
    case Err(message) => ScanFailure(message)
  }

  /** `scanFromBase64(s, password)`: a text that does not decode to a record
      gives one fixed message; otherwise the result is that of `scanQR`. */
  function ScanFromBase64(p: Provider, s: string, password: string): (r: ScanResult)
    ensures CryptoManager.Base64ToPackage(s).Err? ==> r == ScanFailure(InvalidCodeError)
    ensures CryptoManager.Base64ToPackage(s).Ok? ==>
              r == ScanQR(p, CryptoManager.Base64ToPackage(s).value, password)
    ensures r.ScanFailure? ==> r.error == InvalidCodeError || r.error == CryptoManager.DecryptError
  {
    match CryptoManager.Base64ToPackage(s)
    case Err(_) => ScanFailure(InvalidCodeError)
    case Ok(pkg) => ScanQR(p, pkg, password)
  }

  /** Sharing works end to end: the shared form of a record `encrypt` made
      scans, with the record's password, to the original text, when that
      text does not begin with U+FEFF. The only records without a shared
      form are those made with a supplied password holding a character
      above U+00FF. */
  lemma ScanSharedEncryption(p: Provider, plaintext: string, password: Option<string>, entropy: seq<byte>)
    requires Sound(p)
    requires CryptoManager.Encryption(p, plaintext, password, entropy).Ok?
    requires CryptoManager.Truthy(password) ==> Base64.IsLatin1(password.value)
    requires plaintext == [] || plaintext[0] != Utf8.Bom
    ensures var pkg := CryptoManager.Encryption(p, plaintext, password, entropy).value;
            CryptoManager.PackageToBase64(pkg).Ok? &&
            ScanFromBase64(p, CryptoManager.PackageToBase64(pkg).value, pkg.password) == ScanSuccess(plaintext)
  {
    var pkg := CryptoManager.Encryption(p, plaintext, password, entropy).value;
    CryptoManager.EncryptionIsExportable(p, plaintext, password, entropy);
    CryptoManager.Base64ToPackageOfPackageToBase64(pkg);
    CryptoManager.DecryptEncryptionDefaultDecoder(p, plaintext, password, entropy);
  }

  /** A text that begins with U+FEFF never scans back to itself: the
      decoder drops the U+FEFF, and the scan fails unless SHA-256
      collides, in which case it returns the shortened text. */
  lemma ScanSharedBomText(p: Provider, plaintext: string, password: Option<string>, entropy: seq<byte>)
    requires Sound(p)
    requires CryptoManager.Encryption(p, plaintext, password, entropy).Ok?
    requires plaintext != [] && plaintext[0] == Utf8.Bom
    ensures var pkg := CryptoManager.Encryption(p, plaintext, password, entropy).value;
            var r := ScanQR(p, pkg, pkg.password);
            r != ScanSuccess(plaintext) &&
            (r == ScanFailure(CryptoManager.DecryptError) || r == ScanSuccess(plaintext[1..]))
  {
    CryptoManager.BomTextDoesNotRoundTrip(p, plaintext, password, entropy);
  }
}
