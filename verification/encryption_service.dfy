/** The field-envelope cipher of `Bend/services/encryption_service.py`.

    A sensitive field is encrypted in one of two modes chosen by a tag:
    `sync` frames the UTF-8 text as IV || AES-256-CBC(PKCS#7(text)) and
    Base64-encodes it; `async` encrypts the UTF-8 text with RSAES-OAEP and
    Base64-encodes the ciphertext. The AES and RSA-OAEP primitives are library
    code: here they are function values carried by the service, and the
    round-trip lemmas assume of them only that decryption inverts encryption
    (CbcInverts, OaepInverts). The random IV and OAEP seed are parameters. */
module EncryptionService {
  import opened Wrappers
  import Utf8
  import Base64
  import Pkcs7

  /** Bytes of an AES-256 key. */
  const KeySize: nat := 32
  /** Bytes of the CBC initialisation vector (`get_random_bytes(16)`). */
  const IvSize: nat := 16
  /** The secret used when the configuration has no `SYMMETRIC_KEY`. */
  const DefaultSecret: string := "cheie-secreta-default"
  const SymmetricKeyName: string := "SYMMETRIC_KEY"
  /** The mode tags `encrypt` and `decrypt` accept. */
  const SyncTag: string := "sync"
  const AsyncTag: string := "async"
  /** Digest size of SHA-1, the hash `PKCS1_OAEP.new` uses by default. */
  const HashLength: nat := 20

  type SymmetricKey = k: seq<byte> | |k| == KeySize witness Repeat(0x20, KeySize)
  type Iv = v: seq<byte> | |v| == IvSize witness Repeat(0, IvSize)

  /** The errors the service's operations can raise. */
  datatype CryptoError =
    | UnknownEncryptionType      // `ValueError("Tip de criptare necunoscut")`
    | MalformedBase64            // `binascii.Error` from `b64decode`
    | IncorrectIvLength          // `AES.new` given an IV that is not 16 bytes
    | NotBlockAligned            // CBC decryption of data not a multiple of 16 bytes
    | IncorrectPadding           // `unpad` rejects the decrypted bytes
    | InvalidUtf8                // `UnicodeDecodeError`
    | PlaintextTooLong           // OAEP encryption of a message over the limit
    | IncorrectCiphertextLength  // OAEP decryption of data that is not k bytes
    | OaepDecryptionFailed       // OAEP decoding rejects the decrypted block

  /** AES in CBC mode, for a key, an IV and the data. */
  datatype BlockCipher = BlockCipher(
    encrypt: (seq<byte>, seq<byte>, seq<byte>) -> seq<byte>,
    decrypt: (seq<byte>, seq<byte>, seq<byte>) -> seq<byte>)

  /** The assumption made of AES-CBC: for a 32-byte key and a 16-byte IV,
      encryption of block-aligned data keeps its length, and decryption under
      the same key and IV gives the data back. */
  ghost predicate CbcInverts(aes: BlockCipher) {
    forall key: seq<byte>, iv: seq<byte>, p: seq<byte> ::
      |key| == KeySize && |iv| == IvSize && |p| % Pkcs7.BlockSize == 0 ==>
        |aes.encrypt(key, iv, p)| == |p| && aes.decrypt(key, iv, aes.encrypt(key, iv, p)) == p
  }

  /** An RSA key: its modulus and its public or private exponent. */
  datatype RsaKey = RsaKey(modulus: nat, exponent: nat)

  /** The size of the keys `Config.generate_rsa_keys` creates. */
  const RsaModulusBits: nat := 2048

  /** 2 to the power e. */
  function Pow2(e: nat): (p: nat)
    ensures p >= 1
  {
    if e == 0 then 1 else 2 * Pow2(e - 1)
  }

  /** 256 to the power k. */
  function Pow256(k: nat): (p: nat)
    ensures p >= 1
  {
    if k == 0 then 1 else 256 * Pow256(k - 1)
  }

  /** The number of bytes of `n` (`size_in_bytes()` of a key), k in RFC 8017:
      the k with 256^(k-1) <= n < 256^k. */
  function ByteLength(n: nat): (k: nat)
    ensures n == 0 <==> k == 0
    ensures n > 0 ==> Pow256(k - 1) <= n < Pow256(k)
  {
    if n == 0 then 0 else 1 + ByteLength(n / 256)
  }

  /** A key whose modulus has exactly `bits` bits. */
  predicate HasBits(key: RsaKey, bits: nat) {
    bits > 0 && Pow2(bits - 1) <= key.modulus < Pow2(bits)
  }

  /** Eight more bits are one more byte. */
  lemma Pow2Step8(e: nat)
    ensures Pow2(e + 8) == 256 * Pow2(e)
  {
    assert Pow2(e + 8) == 2 * Pow2(e + 7);
    assert Pow2(e + 7) == 2 * Pow2(e + 6);
    assert Pow2(e + 6) == 2 * Pow2(e + 5);
    assert Pow2(e + 5) == 2 * Pow2(e + 4);
    assert Pow2(e + 4) == 2 * Pow2(e + 3);
    assert Pow2(e + 3) == 2 * Pow2(e + 2);
  }

  lemma {:induction false} Pow2Bytes(k: nat)
    ensures Pow2(8 * k) == Pow256(k)
  {
    if k > 0 {
      Pow2Bytes(k - 1);
      Pow2Step8(8 * (k - 1));
    }
  }

  lemma {:induction false} Pow2Monotone(a: nat, b: nat)
    requires a <= b
    ensures Pow2(a) <= Pow2(b)
    decreases b
  {
    if a < b {
      Pow2Monotone(a, b - 1);
    }
  }

  lemma {:induction false} Pow256Monotone(a: nat, b: nat)
    requires a <= b
    ensures Pow256(a) <= Pow256(b)
    decreases b
  {
    if a < b {
      Pow256Monotone(a, b - 1);
    }
  }

  /** A modulus of 8 * m bits, its top bit set, takes exactly m bytes. */
  lemma ByteLengthOfBits(n: nat, m: nat)
    requires m > 0 && Pow2(8 * m - 1) <= n < Pow2(8 * m)
    ensures ByteLength(n) == m
  {
    var e := 8 * (m - 1);
    assert 8 * m - 1 == e + 7 && 8 * m == e + 8;
    Pow2Bytes(m - 1);
    Pow2Step8(e);
    Pow2Monotone(e, e + 7);
    assert Pow256(m - 1) <= n < Pow256(m);
    ByteLengthUnique(n, m);
  }

  /** Only one k has 256^(k-1) <= n < 256^k. */
  lemma ByteLengthUnique(n: nat, m: nat)
    requires m > 0 && Pow256(m - 1) <= n < Pow256(m)
    ensures ByteLength(n) == m
  {
    var k := ByteLength(n);
    if k < m {
      Pow256Monotone(k, m - 1);
    } else if k > m {
      Pow256Monotone(m, k - 1);
    }
  }

  /** Under a 2048-bit key, k is 256 bytes and OAEP with SHA-1 takes messages
      of up to 214 bytes. */
  lemma KeyOf2048Bits(key: RsaKey)
    requires HasBits(key, RsaModulusBits)
    ensures ByteLength(key.modulus) == 256
    ensures MaxMessageLength(ByteLength(key.modulus)) == 214
  {
    var m := RsaModulusBits / 8;
    ByteLengthOfBits(key.modulus, m);
  }

  /** The longest message RSAES-OAEP can encrypt under a k-byte modulus:
      k - 2 hLen - 2 (section 7.1.1 of RFC 8017). */
  function MaxMessageLength(k: nat): int {
    k - 2 * HashLength - 2
  }

  /** RSAES-OAEP: encryption with a public key and a seed, decryption with a
      private key (None when OAEP decoding fails). */
  datatype OaepScheme = OaepScheme(
    encrypt: (RsaKey, seq<byte>, seq<byte>) -> seq<byte>,
    decrypt: (RsaKey, seq<byte>) -> Option<seq<byte>>)

  /** The assumption made of RSA-OAEP: the two keys are a matching pair, every
      message within the limit encrypts to k bytes, and the private key
      decrypts it back. */
  ghost predicate OaepInverts(oaep: OaepScheme, publicKey: RsaKey, privateKey: RsaKey) {
    && publicKey.modulus == privateKey.modulus
    && forall seed: seq<byte>, m: seq<byte> ::
         |m| <= MaxMessageLength(ByteLength(publicKey.modulus)) ==>
           |oaep.encrypt(publicKey, seed, m)| == ByteLength(publicKey.modulus)
           && oaep.decrypt(privateKey, oaep.encrypt(publicKey, seed, m)) == Some(m)
  }

  /** The configured service: key material fixed at construction and the
      library primitives it calls. */
  datatype Service = Service(
    symmetricKey: SymmetricKey,
    publicKey: RsaKey,
    privateKey: RsaKey,
    aes: BlockCipher,
    oaep: OaepScheme)

  /** The service whose primitives behave as assumed. */
  ghost predicate Sound(svc: Service) {
    CbcInverts(svc.aes) && OaepInverts(svc.oaep, svc.publicKey, svc.privateKey)
  }

  /** `bytes.ljust(width)`: pads on the right with spaces (0x20) up to `width`. */
  function LeftJustify(b: seq<byte>, width: nat): (r: seq<byte>)
    ensures |r| == if |b| >= width then |b| else width
    ensures r[..|b|] == b
    ensures forall i :: |b| <= i < |r| ==> r[i] == 0x20
  {
    if |b| >= width then b else b + Repeat(0x20, width - |b|)
  }

  /** `config.get('SYMMETRIC_KEY', 'cheie-secreta-default')`. */
  function ConfiguredSecret(config: map<string, string>): string {
    if SymmetricKeyName in config then config[SymmetricKeyName] else DefaultSecret
  }

  /** `secret.encode('utf-8').ljust(32)[:32]`: always 32 bytes, the first 32
      bytes of the secret when it has that many, else the secret padded with
      spaces. This is not a key derivation: there is no KDF and no salt, so a
      short or guessable secret gives a weak AES key, and two secrets that
      agree on their first 32 bytes give the same key. */
  function NormaliseKey(secret: string): (key: SymmetricKey)
    ensures var b := Utf8.Encode(secret);
      && (|b| >= KeySize ==> key == b[..KeySize])
      && (|b| < KeySize ==> key == b + Repeat(0x20, KeySize - |b|))
  {
    var b := Utf8.Encode(secret);
    var r := LeftJustify(b, KeySize)[..KeySize];
    assert |b| < KeySize ==> r == b + Repeat(0x20, KeySize - |b|);
    r
  }

  /** `EncryptionService(config)`, given the key pair already read from the
      key files and the library primitives. */
  function NewService(config: map<string, string>, publicKey: RsaKey, privateKey: RsaKey,
                      aes: BlockCipher, oaep: OaepScheme): (svc: Service)
    ensures svc.symmetricKey == NormaliseKey(ConfiguredSecret(config))
    ensures svc.publicKey == publicKey && svc.privateKey == privateKey
  {
    Service(NormaliseKey(ConfiguredSecret(config)), publicKey, privateKey, aes, oaep)
  }

  /** Without `SYMMETRIC_KEY` the secret is the default, whose 21 UTF-8 bytes
      are followed by 11 spaces in the key. */
  lemma DefaultKey(config: map<string, string>)
    requires SymmetricKeyName !in config
    ensures ConfiguredSecret(config) == DefaultSecret
    ensures |Utf8.Encode(DefaultSecret)| == 21
    ensures NormaliseKey(ConfiguredSecret(config)) == Utf8.Encode(DefaultSecret) + Repeat(0x20, 11)
  {
    var secret := ConfiguredSecret(config);
    DefaultSecretBytes();
    PaddedKey(secret, 11);
  }

  /** A secret of fewer than 32 bytes is padded with as many spaces as are
      missing. */
  lemma PaddedKey(secret: string, missing: nat)
    requires |Utf8.Encode(secret)| + missing == KeySize
    ensures NormaliseKey(secret) == Utf8.Encode(secret) + Repeat(0x20, missing)
  {
  }

  /** The default secret is ASCII, one byte per character. */
  lemma DefaultSecretBytes()
    ensures |Utf8.Encode(DefaultSecret)| == 21
  {
    assert Utf8.IsAscii(DefaultSecret);
    Utf8.EncodeAscii(DefaultSecret);
  }

  // ---------------------------------------------------------------------
  // Symmetric envelope (AES-256-CBC)
  // ---------------------------------------------------------------------

  /** The bytes of a sync envelope: the IV, then the CBC encryption of the
      padded plaintext. */
  function SyncEnvelope(svc: Service, plaintext: seq<byte>, iv: Iv): seq<byte> {
    iv + svc.aes.encrypt(svc.symmetricKey, iv, Pkcs7.Pad(plaintext))
  }

  /** `encrypt_sync(data)` with the IV drawn as `iv`: None for empty input,
      else the Base64 text of the sync envelope. */
  function EncryptSync(svc: Service, data: string, iv: Iv): (r: Option<string>)
    ensures r.None? <==> data == ""
    ensures r.Some? ==> r.value == Base64.Encode(SyncEnvelope(svc, Utf8.Encode(data), iv))
  {
    if data == "" then None
    else Some(Base64.Encode(SyncEnvelope(svc, Utf8.Encode(data), iv)))
  }

  /** Splits an envelope into IV (bytes 0..16) and ciphertext (bytes 16..),
      decrypts and unpads. */
  function OpenSyncEnvelope(svc: Service, envelope: seq<byte>): (r: Result<seq<byte>, CryptoError>)
    ensures r.Ok? ==> |envelope| >= IvSize && (|envelope| - IvSize) % Pkcs7.BlockSize == 0
    ensures r.Ok? ==>
      Pkcs7.Pad(r.value) == svc.aes.decrypt(svc.symmetricKey, envelope[..IvSize], envelope[IvSize..])
  {
    if |envelope| < IvSize then Err(IncorrectIvLength)
    else
      var iv, ciphertext := envelope[..IvSize], envelope[IvSize..];
      if |ciphertext| % Pkcs7.BlockSize != 0 then Err(NotBlockAligned)
      else
        var padded := svc.aes.decrypt(svc.symmetricKey, iv, ciphertext);
        match Pkcs7.Unpad(padded)
        case None => Err(IncorrectPadding)
        case Some(plaintext) =>
          Pkcs7.PadUnpad(padded, plaintext);
          Ok(plaintext)
  }


  /** `decrypt_sync(data)`: Ok(None) for empty input, else the decrypted text
      or the error raised on the way. */
  function DecryptSync(svc: Service, data: string): (r: Result<Option<string>, CryptoError>)
    ensures r.Ok? && r.value.None? <==> data == ""
    ensures data != "" && Base64.Decode(data).None? ==> r == Err(MalformedBase64)
    ensures data != "" && Base64.Decode(data).Some? ==>
      var envelope := Base64.Decode(data).value;
      && (|envelope| < IvSize ==> r == Err(IncorrectIvLength))
      && (|envelope| >= IvSize && (|envelope| - IvSize) % Pkcs7.BlockSize != 0 ==> r == Err(NotBlockAligned))
      && (|envelope| >= IvSize && (|envelope| - IvSize) % Pkcs7.BlockSize == 0 &&
          Pkcs7.Unpad(svc.aes.decrypt(svc.symmetricKey, envelope[..IvSize], envelope[IvSize..])).None?
          ==> r == Err(IncorrectPadding))
    ensures r.Ok? && data != "" ==>
      && r.value.Some? && Base64.Decode(data).Some?
      && var envelope := Base64.Decode(data).value;
      && |envelope| >= IvSize && (|envelope| - IvSize) % Pkcs7.BlockSize == 0
      && Pkcs7.Pad(Utf8.Encode(r.value.value)) == svc.aes.decrypt(svc.symmetricKey, envelope[..IvSize], envelope[IvSize..])
  {
    if data == "" then Ok(None)
    else
      match Base64.Decode(data)
      case None => Err(MalformedBase64)
      case Some(envelope) =>
        match OpenSyncEnvelope(svc, envelope)
        case Err(e) => Err(e)
        case Ok(plaintext) =>
          match Utf8.Decode(plaintext)
          case None => Err(InvalidUtf8)
          case Some(text) =>
            Utf8.EncodeDecode(plaintext);
            Ok(Some(text))
  }

  /** Opening the envelope inverts sealing it: the split at byte 16 recovers
      the IV and ciphertext, and unpadding recovers the plaintext. */
  lemma OpenSyncEnvelopeSeals(svc: Service, plaintext: seq<byte>, iv: Iv)
    requires CbcInverts(svc.aes)
    ensures OpenSyncEnvelope(svc, SyncEnvelope(svc, plaintext, iv)) == Ok(plaintext)
  {
    var padded := Pkcs7.Pad(plaintext);
    var ciphertext := svc.aes.encrypt(svc.symmetricKey, iv, padded);
    var envelope := iv + ciphertext;
    assert envelope[..IvSize] == iv && envelope[IvSize..] == ciphertext;
    Pkcs7.UnpadPad(plaintext);
  }

  /** Sync round trip: for non-empty text and any IV,
      `decrypt_sync(encrypt_sync(s)) == s`. */
  lemma SyncRoundTrip(svc: Service, s: string, iv: Iv)
    requires CbcInverts(svc.aes)
    requires s != ""
    ensures DecryptSync(svc, EncryptSync(svc, s, iv).value) == Ok(Some(s))
  {
    var envelope := SyncEnvelope(svc, Utf8.Encode(s), iv);
    Base64.DecodeEncode(envelope);
    OpenSyncEnvelopeSeals(svc, Utf8.Encode(s), iv);
    Utf8.DecodeEncode(s);
    Base64.EncodeIsText(envelope);
    assert Base64.Encode(envelope) != "" by {
      assert |Base64.Encode(envelope)| == Base64.EncodedLength(|envelope|);
    }
  }

  /** The layout of a sync envelope of text whose UTF-8 form has n bytes: it
      Base64-decodes to the IV followed by 16 * (floor(n / 16) + 1) bytes of
      ciphertext, 16 * (floor(n / 16) + 2) bytes in all, and its text has
      4 * ceil(that / 3) characters (Base64.EncodedLength). */
  lemma SyncEnvelopeLayout(svc: Service, s: string, iv: Iv)
    requires CbcInverts(svc.aes)
    requires s != ""
    ensures var n := |Utf8.Encode(s)|;
      var text := EncryptSync(svc, s, iv).value;
      && Base64.Decode(text).Some?
      && var bytes := Base64.Decode(text).value;
      && |bytes| == 16 * (n / 16 + 2)
      && bytes[..IvSize] == iv
      && |bytes[IvSize..]| == 16 * (n / 16 + 1)
      && |text| == Base64.EncodedLength(16 * (n / 16 + 2))
  {
    var u := Utf8.Encode(s);
    var n := |u|;
    var padded := Pkcs7.Pad(u);
    Pkcs7.PadLengthFormula(u);
    var ciphertext := svc.aes.encrypt(svc.symmetricKey, iv, padded);
    assert |ciphertext| == 16 * (n / 16 + 1);
    var envelope := iv + ciphertext;
    assert envelope == SyncEnvelope(svc, u, iv);
    assert |envelope| == 16 * (n / 16 + 2);
    assert envelope[..IvSize] == iv && envelope[IvSize..] == ciphertext;
    Base64.DecodeEncode(envelope);
    var text := Base64.Encode(envelope);
    assert text == EncryptSync(svc, s, iv).value;
    var total := 16 * (n / 16 + 2);
    assert |envelope| == total;
    assert |text| == Base64.EncodedLength(total);
  }

  /** Two sync encryptions of the same text under different IVs give
      different envelopes, whatever the cipher does: the IV is the decoded
      prefix. */
  lemma DistinctIvsDistinctEnvelopes(svc: Service, s: string, iv1: Iv, iv2: Iv)
    requires s != "" && iv1 != iv2
    ensures EncryptSync(svc, s, iv1) != EncryptSync(svc, s, iv2)
  {
    var e1 := SyncEnvelope(svc, Utf8.Encode(s), iv1);
    var e2 := SyncEnvelope(svc, Utf8.Encode(s), iv2);
    assert e1[..IvSize] == iv1 && e2[..IvSize] == iv2;
    Base64.EncodeInjective(e1, e2);
  }

  // ---------------------------------------------------------------------
  // Asymmetric envelope (RSAES-OAEP)
  // ---------------------------------------------------------------------

  /** `PKCS1_OAEP.new(public_key).encrypt(m)` with the seed drawn as `seed`. */
  function OaepEncrypt(svc: Service, seed: seq<byte>, m: seq<byte>): (r: Result<seq<byte>, CryptoError>)
    ensures r.Err? <==> |m| > MaxMessageLength(ByteLength(svc.publicKey.modulus))
    ensures r.Err? ==> r.error == PlaintextTooLong
  {
    if |m| > MaxMessageLength(ByteLength(svc.publicKey.modulus)) then Err(PlaintextTooLong)
    else Ok(svc.oaep.encrypt(svc.publicKey, seed, m))
  }

  /** `PKCS1_OAEP.new(private_key).decrypt(c)`: the length check of step 1 of
      section 7.1.2 of RFC 8017, then the primitive and OAEP decoding. */
  function OaepDecrypt(svc: Service, c: seq<byte>): (r: Result<seq<byte>, CryptoError>)
    ensures |c| != ByteLength(svc.privateKey.modulus) ==> r == Err(IncorrectCiphertextLength)
  {
    var k := ByteLength(svc.privateKey.modulus);
    if |c| != k || k < HashLength + 2 then Err(IncorrectCiphertextLength)
    else
      match svc.oaep.decrypt(svc.privateKey, c)
      case None => Err(OaepDecryptionFailed)
      case Some(m) => Ok(m)
  }

  /** `encrypt_async(data)`: Ok(None) for empty input, else the Base64 text of
      the OAEP ciphertext, or PlaintextTooLong when the UTF-8 text is over the
      OAEP limit. */
  function EncryptAsync(svc: Service, data: string, seed: seq<byte>): (r: Result<Option<string>, CryptoError>)
    ensures r.Ok? && r.value.None? <==> data == ""
    ensures r.Err? <==> data != "" && |Utf8.Encode(data)| > MaxMessageLength(ByteLength(svc.publicKey.modulus))
  {
    if data == "" then Ok(None)
    else
      match OaepEncrypt(svc, seed, Utf8.Encode(data))
      case Err(e) => Err(e)
      case Ok(c) => Ok(Some(Base64.Encode(c)))
  }

  /** `decrypt_async(data)`: Ok(None) for empty input, else the decrypted text
      or the error raised on the way. */
  function DecryptAsync(svc: Service, data: string): (r: Result<Option<string>, CryptoError>)
    ensures r.Ok? && r.value.None? <==> data == ""
    ensures data != "" && Base64.Decode(data).None? ==> r == Err(MalformedBase64)
    ensures (data != "" && Base64.Decode(data).Some? && |Base64.Decode(data).value| != ByteLength(svc.privateKey.modulus))
            ==> r == Err(IncorrectCiphertextLength)
    ensures r.Ok? && data != "" ==>
      && r.value.Some? && Base64.Decode(data).Some?
      && svc.oaep.decrypt(svc.privateKey, Base64.Decode(data).value) == Some(Utf8.Encode(r.value.value))
  {
    if data == "" then Ok(None)
    else
      match Base64.Decode(data)
      case None => Err(MalformedBase64)
      case Some(c) =>
        match OaepDecrypt(svc, c)
        case Err(e) => Err(e)
        case Ok(m) =>
          match Utf8.Decode(m)
          case None => Err(InvalidUtf8)
          case Some(text) =>
            Utf8.EncodeDecode(m);
            Ok(Some(text))
  }

  /** Async round trip: with a matching key pair, non-empty text whose UTF-8
      form is within the OAEP limit decrypts back to itself. */
  lemma AsyncRoundTrip(svc: Service, s: string, seed: seq<byte>)
    requires OaepInverts(svc.oaep, svc.publicKey, svc.privateKey)
    requires s != ""
    requires |Utf8.Encode(s)| <= MaxMessageLength(ByteLength(svc.publicKey.modulus))
    ensures EncryptAsync(svc, s, seed).Ok?
    ensures DecryptAsync(svc, EncryptAsync(svc, s, seed).value.value) == Ok(Some(s))
  {
    var m := Utf8.Encode(s);
    var k := ByteLength(svc.publicKey.modulus);
    var c := svc.oaep.encrypt(svc.publicKey, seed, m);
    assert OaepEncrypt(svc, seed, m) == Ok(c);
    var text := Base64.Encode(c);
    assert EncryptAsync(svc, s, seed) == Ok(Some(text));
    assert |c| == k >= HashLength + 2;
    assert text != "" by {
      assert |text| == Base64.EncodedLength(|c|);
    }
    Base64.DecodeEncode(c);
    assert OaepDecrypt(svc, c) == Ok(m);
    Utf8.DecodeEncode(s);
  }

  /** Decrypting a sync envelope as async fails with no plausible plaintext
      whenever the envelope's byte length, 16 * (floor(n / 16) + 2), differs
      from the modulus length k. */
  lemma SyncEnvelopeRejectedByAsync(svc: Service, s: string, iv: Iv)
    requires CbcInverts(svc.aes)
    requires s != ""
    requires 16 * (|Utf8.Encode(s)| / 16 + 2) != ByteLength(svc.privateKey.modulus)
    ensures DecryptAsync(svc, EncryptSync(svc, s, iv).value) == Err(IncorrectCiphertextLength)
  {
    SyncEnvelopeLayout(svc, s, iv);
    SyncRoundTrip(svc, s, iv);
  }

  /** Under a 2048-bit key (k = 256), every text of fewer than 224 or of at
      least 240 bytes is rejected that way. */
  lemma SyncEnvelopeRejectedUnder2048(svc: Service, s: string, iv: Iv)
    requires CbcInverts(svc.aes)
    requires s != "" && HasBits(svc.privateKey, RsaModulusBits)
    requires |Utf8.Encode(s)| < 224 || |Utf8.Encode(s)| >= 240
    ensures DecryptAsync(svc, EncryptSync(svc, s, iv).value) == Err(IncorrectCiphertextLength)
  {
    KeyOf2048Bits(svc.privateKey);
    var n := |Utf8.Encode(s)|;
    assert n / 16 != 14;
    SyncEnvelopeRejectedByAsync(svc, s, iv);
  }

  // ---------------------------------------------------------------------
  // Dispatch on the mode tag
  // ---------------------------------------------------------------------

  /** `encrypt(data, encryption_type)`: exactly `sync` selects AES, exactly
      `async` selects RSA, any other tag raises, before the input is looked
      at. */
  function Encrypt(svc: Service, data: string, encryptionType: string, iv: Iv, seed: seq<byte>)
    : (r: Result<Option<string>, CryptoError>)
  {
    if encryptionType == SyncTag then Ok(EncryptSync(svc, data, iv))
    else if encryptionType == AsyncTag then EncryptAsync(svc, data, seed)
    else Err(UnknownEncryptionType)
  }

  /** `decrypt(data, encryption_type)`, dispatching as Encrypt does. */
  function Decrypt(svc: Service, data: string, encryptionType: string): (r: Result<Option<string>, CryptoError>)
    ensures r.Ok? && r.value.None? <==> data == "" && encryptionType in {SyncTag, AsyncTag}
  {
    if encryptionType == SyncTag then DecryptSync(svc, data)
    else if encryptionType == AsyncTag then DecryptAsync(svc, data)
    else Err(UnknownEncryptionType)
  }

  /** The tag error is raised exactly for the tags other than `sync` and
      `async`, and no other path raises it: there is no fallback mode. */
  lemma UnknownTagIffNotAMode(svc: Service, data: string, encryptionType: string, iv: Iv, seed: seq<byte>)
    ensures (Encrypt(svc, data, encryptionType, iv, seed) == Err(UnknownEncryptionType))
            <==> encryptionType !in {SyncTag, AsyncTag}
    ensures (Decrypt(svc, data, encryptionType) == Err(UnknownEncryptionType))
            <==> encryptionType !in {SyncTag, AsyncTag}
  {
    if encryptionType == SyncTag {
      var d := DecryptSync(svc, data);
      if data != "" {
        match Base64.Decode(data)
        case None =>
        case Some(envelope) =>
      }
    } else if encryptionType == AsyncTag {
      var e := EncryptAsync(svc, data, seed);
      var d := DecryptAsync(svc, data);
      if data != "" {
        match Base64.Decode(data)
        case None =>
        case Some(c) =>
      }
    }
  }

  /** Empty input is no value to encrypt: both modes return Ok(None) from
      both directions, whatever the keys and primitives. */
  lemma EmptyInputIsNone(svc: Service, encryptionType: string, iv: Iv, seed: seq<byte>)
    requires encryptionType in {SyncTag, AsyncTag}
    ensures Encrypt(svc, "", encryptionType, iv, seed) == Ok(None)
    ensures Decrypt(svc, "", encryptionType) == Ok(None)
  {
  }

  /** Round trip through the dispatcher: `decrypt(encrypt(s, t), t) == s` for
      t in {sync, async}, within the OAEP limit for async. */
  lemma RoundTrip(svc: Service, s: string, encryptionType: string, iv: Iv, seed: seq<byte>)
    requires Sound(svc)
    requires s != "" && encryptionType in {SyncTag, AsyncTag}
    requires encryptionType == AsyncTag ==>
      |Utf8.Encode(s)| <= MaxMessageLength(ByteLength(svc.publicKey.modulus))
    ensures Encrypt(svc, s, encryptionType, iv, seed).Ok?
    ensures Encrypt(svc, s, encryptionType, iv, seed).value.Some?
    ensures Decrypt(svc, Encrypt(svc, s, encryptionType, iv, seed).value.value, encryptionType) == Ok(Some(s))
  {
    if encryptionType == SyncTag {
      SyncRoundTrip(svc, s, iv);
    } else {
      AsyncRoundTrip(svc, s, seed);
    }
  }
}
