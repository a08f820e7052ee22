/** The byte and string transforms the engine applies between serializing
    its tables and handing the result to storage (`SavePostProcessBinary`,
    `SavePostProcessString`) and their inverses on the way back
    (`LoadPostProcessBinary`, `LoadPostProcessString`).

    Encryption, GZip, Base64 and UTF-8 are library code outside this model;
    they appear as function values, and every fact about them the round-trip
    lemmas use is stated as a hypothesis about those values. */
module PostProcess {

  newtype uint8 = x: int | 0 <= x < 256

  type Bytes = seq<uint8>

  /** The two switches of `PersistenceSettings`. */
  datatype Settings = Settings(encryptation: bool, gzip: bool)

  /** The optional encryption provider (`null` when none was given). */
  datatype Encryption =
    | NoEncryptionProvider
    | EncryptionProvider(encrypt: Bytes -> Bytes, decrypt: Bytes -> Bytes)

  /** The library transforms: `GZipUtility`, `Base64Utility` and
      `Encoding.UTF8`. */
  datatype Codecs = Codecs(
    compress: Bytes -> Bytes,
    decompress: Bytes -> Bytes,
    bytesToBase64: Bytes -> string,
    base64ToBytes: string -> Bytes,
    utf8GetBytes: string -> Bytes,
    utf8GetString: Bytes -> string)

  /** What the four post-processors consult: the settings, the provider and
      the library transforms. */
  datatype Pipeline = Pipeline(settings: Settings, encryption: Encryption, codecs: Codecs)

  /** `CanEncrypt`: encryption is switched on and a provider exists. The
      provider is never called without both, and always with both. */
  predicate CanEncrypt(p: Pipeline): (r: bool)
    ensures r ==> p.encryption.EncryptionProvider?
    ensures !p.settings.encryptation ==> !r
    ensures p.settings.encryptation && p.encryption.EncryptionProvider? ==> r
  {
    p.settings.encryptation && p.encryption.EncryptionProvider?
  }

  /** Whether any byte stage is active. */
  predicate Transforms(p: Pipeline)
  {
    CanEncrypt(p) || p.settings.gzip
  }

  // ---------------------------------------------------------------------
  // The four post-processors

  /** Encrypt first, then compress. */
  function SavePostProcessBinary(p: Pipeline, data: Bytes): (r: Bytes)
    ensures !Transforms(p) ==> r == data
  {
    var encrypted := if CanEncrypt(p) then p.encryption.encrypt(data) else data;
    if p.settings.gzip then p.codecs.compress(encrypted) else encrypted
  }

  /** Decompress first, then decrypt. */
  function LoadPostProcessBinary(p: Pipeline, data: Bytes): (r: Bytes)
    ensures !Transforms(p) ==> r == data
  {
    var decompressed := if p.settings.gzip then p.codecs.decompress(data) else data;
    if CanEncrypt(p) then p.encryption.decrypt(decompressed) else decompressed
  }

  /** Text is turned into bytes only when a byte stage is active; the bytes
      are then encrypted, compressed and written back as Base64. With no
      stage active the text passes through untouched. */
  function SavePostProcessString(p: Pipeline, text: string): (r: string)
    ensures !Transforms(p) ==> r == text
  {
    var bytes: Bytes := if Transforms(p) then p.codecs.utf8GetBytes(text) else [];
    var encrypted := if CanEncrypt(p) then p.encryption.encrypt(bytes) else bytes;
    var compressed := if p.settings.gzip then p.codecs.compress(encrypted) else encrypted;
    if Transforms(p) then p.codecs.bytesToBase64(compressed) else text
  }

  /** Base64-decode, decompress, decrypt, then read the bytes as UTF-8 —
      each step only when some byte stage is active. */
  function LoadPostProcessString(p: Pipeline, text: string): (r: string)
    ensures !Transforms(p) ==> r == text
  {
    var bytes: Bytes := if Transforms(p) then p.codecs.base64ToBytes(text) else [];
    var decompressed := if p.settings.gzip then p.codecs.decompress(bytes) else bytes;
    var decrypted := if CanEncrypt(p) then p.encryption.decrypt(decompressed) else decompressed;
    if Transforms(p) then p.codecs.utf8GetString(decrypted) else text
  }

  // ---------------------------------------------------------------------
  // Stage order

  /** With encryption switched on and a provider given, saving encrypts and
      then (if GZip is on) compresses; loading decompresses (if GZip is on)
      and then decrypts. */
  lemma EncryptedStageOrder(p: Pipeline, data: Bytes)
    requires p.settings.encryptation && p.encryption.EncryptionProvider?
    ensures SavePostProcessBinary(p, data)
      == (if p.settings.gzip then p.codecs.compress(p.encryption.encrypt(data)) else p.encryption.encrypt(data))
    ensures LoadPostProcessBinary(p, data)
      == p.encryption.decrypt(if p.settings.gzip then p.codecs.decompress(data) else data)
  {
  }

  /** Without encryption in effect (switched off, or no provider) the only
      possible stage is GZip: saving compresses and loading decompresses. */
  lemma CompressionOnlyStage(p: Pipeline, data: Bytes)
    requires !(p.settings.encryptation && p.encryption.EncryptionProvider?)
    requires p.settings.gzip
    ensures SavePostProcessBinary(p, data) == p.codecs.compress(data)
    ensures LoadPostProcessBinary(p, data) == p.codecs.decompress(data)
  {
  }

  /** The text path in full, with encryption in effect: UTF-8, encrypt,
      optionally compress, Base64 on save; Base64, optionally decompress,
      decrypt, UTF-8 on load. */
  lemma EncryptedStringStageOrder(p: Pipeline, text: string)
    requires p.settings.encryptation && p.encryption.EncryptionProvider?
    ensures var bytes := p.codecs.utf8GetBytes(text);
      SavePostProcessString(p, text)
      == p.codecs.bytesToBase64(
           if p.settings.gzip then p.codecs.compress(p.encryption.encrypt(bytes)) else p.encryption.encrypt(bytes))
    ensures var bytes := p.codecs.base64ToBytes(text);
      LoadPostProcessString(p, text)
      == p.codecs.utf8GetString(
           p.encryption.decrypt(if p.settings.gzip then p.codecs.decompress(bytes) else bytes))
  {
  }

  // ---------------------------------------------------------------------
  // Hypotheses about the library transforms

  ghost predicate BytesInverse(forward: Bytes -> Bytes, backward: Bytes -> Bytes)
  {
    forall b :: backward(forward(b)) == b
  }

  /** Decryption undoes encryption, when encryption is in use. */
  ghost predicate EncryptionInverts(p: Pipeline)
  {
    CanEncrypt(p) ==> BytesInverse(p.encryption.encrypt, p.encryption.decrypt)
  }

  /** Decompression undoes compression, when compression is in use. */
  ghost predicate CompressionInverts(p: Pipeline)
  {
    p.settings.gzip ==> BytesInverse(p.codecs.compress, p.codecs.decompress)
  }

  /** Base64 decoding undoes encoding, and UTF-8 decoding undoes encoding,
      when the string path converts at all. */
  ghost predicate TextCodecsInvert(p: Pipeline)
  {
    Transforms(p) ==>
      && (forall b :: p.codecs.base64ToBytes(p.codecs.bytesToBase64(b)) == b)
      && (forall t :: p.codecs.utf8GetString(p.codecs.utf8GetBytes(t)) == t)
  }

  // ---------------------------------------------------------------------
  // Round trips

  /** Loading what was saved gives back the serialized bytes, under every
      combination of the two switches, as long as each active stage is
      undone by its partner. */
  lemma BinaryRoundTrip(p: Pipeline, data: Bytes)
    requires EncryptionInverts(p) && CompressionInverts(p)
    ensures LoadPostProcessBinary(p, SavePostProcessBinary(p, data)) == data
  {
  }

  /** The same for the text path, which additionally needs Base64 and UTF-8
      to round-trip whenever a stage is active. */
  lemma StringRoundTrip(p: Pipeline, text: string)
    requires EncryptionInverts(p) && CompressionInverts(p) && TextCodecsInvert(p)
    ensures LoadPostProcessString(p, SavePostProcessString(p, text)) == text
  {
  }

  /** The text path is the binary path wrapped in UTF-8 and Base64: when a
      stage is active, saving text is saving its UTF-8 bytes and
      Base64-encoding the result, and loading is the mirror image. */
  lemma StringPathWrapsBinaryPath(p: Pipeline, text: string)
    requires Transforms(p)
    ensures SavePostProcessString(p, text)
      == p.codecs.bytesToBase64(SavePostProcessBinary(p, p.codecs.utf8GetBytes(text)))
    ensures LoadPostProcessString(p, text)
      == p.codecs.utf8GetString(LoadPostProcessBinary(p, p.codecs.base64ToBytes(text)))
  {
  }

  /** The provider is consulted only when encryption is switched on: with it
      off, swapping the provider changes nothing. */
  lemma ProviderIgnoredWhenSwitchedOff(p: Pipeline, other: Encryption, data: Bytes, text: string)
    requires !p.settings.encryptation
    ensures SavePostProcessBinary(p.(encryption := other), data) == SavePostProcessBinary(p, data)
    ensures LoadPostProcessBinary(p.(encryption := other), data) == LoadPostProcessBinary(p, data)
    ensures SavePostProcessString(p.(encryption := other), text) == SavePostProcessString(p, text)
    ensures LoadPostProcessString(p.(encryption := other), text) == LoadPostProcessString(p, text)
  {
  }
}
