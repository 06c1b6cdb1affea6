/**
 * `encrypt_bundle` / `decrypt_bundle`: an ephemeral X25519 exchange with the
 * recipient's key, HKDF to an AES key, AES-GCM over the UTF-8 content, and an
 * Ed25519 signature over the canonical JSON of the metadata.  Every binary
 * field travels as base64 text.
 *
 * X25519, HKDF, Ed25519, AES-GCM, the JSON canonicaliser and UTF-8 are
 * abstract functions gathered in `Primitives`; the facts about them that the
 * round trip needs are separate predicates, taken as hypotheses.
 *
 * `CryptoError` tells apart failures that share a Python exception class:
 * only `InvalidSignature` and `InvalidTag` have classes of their own, a bad
 * `timestamp` or `ttl` raises `KeyError` or `TypeError`, and every other
 * failure raises `ValueError` or a subclass of it.
 */
module HybridEncrypt {
  import opened Wrappers
  import opened Json
  import opened Bytes
  import Base64
  import opened Metadata
  import AesGcm
  import opened Schemas
  import TtlManager
  import Text

  datatype Primitives = Primitives(
    /** The raw public key of an X25519 private key. */
    x25519Public: Bytes -> Bytes,
    /** `private.exchange(peer)`, the peer given by its raw public key. */
    exchange: (Bytes, Bytes) -> Bytes,
    /** HKDF-SHA256 with no salt and 32 bytes of output, of a secret and an info string. */
    hkdf: (Bytes, Bytes) -> Bytes,
    /** The raw public key of an Ed25519 private key. */
    ed25519Public: Bytes -> Bytes,
    /** `private.sign(data)`. */
    sign: (Bytes, Bytes) -> Bytes,
    /** `public.verify(signature, data)` succeeding, the key given raw. */
    verify: (Bytes, Bytes, Bytes) -> bool,
    aead: AesGcm.Aead,
    /** `json.dumps(d, sort_keys=True).encode()`. */
    canonical: map<string, Value> -> Bytes,
    utf8Encode: string -> Bytes,
    /** `bytes.decode()`; None where it raises `UnicodeDecodeError`. */
    utf8Decode: Bytes -> Option<string>)

  /** Length of a raw X25519 or Ed25519 public key. */
  const PublicKeyBytes: nat := 32

  /** The `length=32` of the HKDF: an AES-256 key. */
  const AesKeyBytes: nat := 32

  /** The HKDF info string `b"clipboard-sync"`. */
  const HkdfInfo: Bytes := Ascii("clipboard-sync")

  ghost predicate DhSymmetric(p: Primitives)
  {
    forall a, b :: p.exchange(a, p.x25519Public(b)) == p.exchange(b, p.x25519Public(a))
  }

  ghost predicate SignaturesVerify(p: Primitives)
  {
    forall sk, d :: p.verify(p.ed25519Public(sk), p.sign(sk, d), d)
  }

  ghost predicate RawKeys(p: Primitives)
  {
    forall sk :: |p.x25519Public(sk)| == PublicKeyBytes && |p.ed25519Public(sk)| == PublicKeyBytes
  }

  /** HKDF gives output of the requested length. */
  ghost predicate HkdfLength(p: Primitives)
  {
    forall secret, info :: |p.hkdf(secret, info)| == AesKeyBytes
  }

  ghost predicate Utf8RoundTrips(p: Primitives)
  {
    forall s :: p.utf8Decode(p.utf8Encode(s)) == Some(s)
  }

  /** The correctness facts of the primitives that the round trip rests on. */
  ghost predicate Sound(p: Primitives)
  {
    DhSymmetric(p) && SignaturesVerify(p) && RawKeys(p) && Utf8RoundTrips(p) && AesGcm.Correct(p.aead)
  }

  /** The exception each failing step raises. */
  datatype CryptoError =
    | InvalidPublicKey   // `ValueError` from `from_public_bytes` of a key that is not 32 bytes
    | MalformedBase64    // `binascii.Error`, a `ValueError`, from `b64d`
    | InvalidSignature   // `InvalidSignature` from `verify`
    | MalformedMetadata  // `KeyError` or `TypeError` reading `timestamp` and `ttl`
    | MessageExpired     // the `ValueError` of the freshness check
    | InvalidNonce       // `ValueError` from AES-GCM for a nonce outside 8 to 128 bytes
    | InvalidTag         // `InvalidTag` from AES-GCM
    | InvalidUtf8        // `UnicodeDecodeError`, a `ValueError`, from `decode`

  /** The dict `encrypt_bundle` returns and `decrypt_bundle` reads. */
  datatype Envelope = Envelope(
    ciphertext: string,
    nonce: string,
    tag: string,
    ephemeralPubkey: string,
    metadata: map<string, Value>,
    signature: string)

  /** `from_public_bytes`, which accepts exactly 32 raw bytes. */
  function LoadPublicKey(raw: Bytes): (r: Result<Bytes, CryptoError>)
    ensures r.Ok? <==> |raw| == PublicKeyBytes
    ensures r.Ok? ==> r.value == raw
    ensures r.Err? ==> r.error == InvalidPublicKey
  {
    if |raw| == PublicKeyBytes then Ok(raw) else Err(InvalidPublicKey)
  }

  /** `derive_aes_key`: HKDF-SHA256 of the shared secret with the info `clipboard-sync`. */
  function DeriveAesKey(p: Primitives, secret: Bytes): (key: Bytes)
    ensures HkdfLength(p) ==> |key| == AesKeyBytes
  {
    p.hkdf(secret, HkdfInfo)
  }

  /**
   * `encrypt_bundle`.  `ephemeralPrivate`, `aesNonce` and `metadataRandom`
   * stand for the fresh key pair and random bytes it draws, `now` for the clock.
   */
  function EncryptBundle(p: Primitives, content: string, senderSigningPrivate: Bytes, recipientPublic: Bytes,
                         senderId: string, contentType: string,
                         ephemeralPrivate: Bytes, aesNonce: Bytes, metadataRandom: Bytes, now: int): (r: Result<Envelope, CryptoError>)
    requires |aesNonce| == AesGcm.NonceBytes && |metadataRandom| == RandomBytes
    ensures r.Ok? <==> |recipientPublic| == PublicKeyBytes
    ensures r.Err? ==> r.error == InvalidPublicKey
    ensures r.Ok? ==> r.value.metadata == ToDict(CreateMetadata(senderId, contentType, now, metadataRandom))
    ensures r.Ok? ==> Base64.Decode(r.value.signature) == Some(p.sign(senderSigningPrivate, p.canonical(r.value.metadata)))
    ensures r.Ok? ==> Base64.Decode(r.value.nonce) == Some(aesNonce)
    ensures r.Ok? ==> Base64.Decode(r.value.ephemeralPubkey) == Some(p.x25519Public(ephemeralPrivate))
    ensures r.Ok? ==>
              && Base64.Decode(r.value.ciphertext).Some? && Base64.Decode(r.value.tag).Some?
              && Base64.Decode(r.value.ciphertext).value + Base64.Decode(r.value.tag).value
                 == p.aead.seal(DeriveAesKey(p, p.exchange(ephemeralPrivate, recipientPublic)), aesNonce, p.utf8Encode(content))
  {
    var ephemeralPublic := p.x25519Public(ephemeralPrivate);
    var recipient :- LoadPublicKey(recipientPublic);
    var key := DeriveAesKey(p, p.exchange(ephemeralPrivate, recipient));
    var sealed := AesGcm.Encrypt(p.aead, p.utf8Encode(content), key, aesNonce);
    var metadata := ToDict(CreateMetadata(senderId, contentType, now, metadataRandom));
    var signature := p.sign(senderSigningPrivate, p.canonical(metadata));
    Base64.DecodeEncode(signature);
    Base64.DecodeEncode(aesNonce);
    Base64.DecodeEncode(ephemeralPublic);
    Base64.DecodeEncode(sealed.ciphertext);
    Base64.DecodeEncode(sealed.tag);
    Ok(Envelope(Base64.Encode(sealed.ciphertext), Base64.Encode(sealed.nonce), Base64.Encode(sealed.tag),
                Base64.Encode(ephemeralPublic), metadata, Base64.Encode(signature)))
  }

  /** The freshness rule: a message older than its own `ttl` is rejected. */
  predicate Stale(issued: int, ttl: int, now: int)
  {
    now - issued > ttl
  }

  /**
   * What `decrypt_bundle` reads out of an envelope: the binary fields after
   * `b64d` (None where it raises) and the metadata's `timestamp` and `ttl`
   * (None where reading them raises).
   */
  datatype Fields = Fields(
    ephemeralPubkey: Option<Bytes>,
    signature: Option<Bytes>,
    timestamp: Option<int>,
    ttl: Option<int>,
    ciphertext: Option<Bytes>,
    tag: Option<Bytes>,
    nonce: Option<Bytes>)

  /** An integer metadata entry; None where it is missing or not a number. */
  function NumberField(m: map<string, Value>, key: string): (r: Option<int>)
    ensures r.Some? <==> key in m && m[key].Num?
    ensures r.Some? ==> r.value == m[key].n
  {
    if key in m && m[key].Num? then Some(m[key].n) else None
  }

  function ReadFields(e: Envelope): (d: Fields)
    ensures d.ephemeralPubkey == Base64.Decode(e.ephemeralPubkey) && d.signature == Base64.Decode(e.signature)
    ensures d.ciphertext == Base64.Decode(e.ciphertext) && d.tag == Base64.Decode(e.tag) && d.nonce == Base64.Decode(e.nonce)
    ensures d.timestamp.Some? <==> "timestamp" in e.metadata && e.metadata["timestamp"].Num?
    ensures d.ttl.Some? <==> "ttl" in e.metadata && e.metadata["ttl"].Num?
    ensures d.timestamp.Some? ==> d.timestamp.value == e.metadata["timestamp"].n
    ensures d.ttl.Some? ==> d.ttl.value == e.metadata["ttl"].n
  {
    Fields(Base64.Decode(e.ephemeralPubkey), Base64.Decode(e.signature),
           NumberField(e.metadata, "timestamp"), NumberField(e.metadata, "ttl"),
           Base64.Decode(e.ciphertext), Base64.Decode(e.tag), Base64.Decode(e.nonce))
  }

  /** The ephemeral public key, and the AES key shared through it. */
  function SessionKey(p: Primitives, ephemeralRaw: Option<Bytes>, recipientPrivate: Bytes): (r: Result<Bytes, CryptoError>)
    ensures r.Ok? <==> ephemeralRaw.Some? && |ephemeralRaw.value| == PublicKeyBytes
    ensures r.Ok? ==> r.value == DeriveAesKey(p, p.exchange(recipientPrivate, ephemeralRaw.value))
    ensures r.Err? ==> r.error == MalformedBase64 || r.error == InvalidPublicKey
  {
    if ephemeralRaw.None? then Err(MalformedBase64)
    else if |ephemeralRaw.value| != PublicKeyBytes then Err(InvalidPublicKey)
    else Ok(DeriveAesKey(p, p.exchange(recipientPrivate, ephemeralRaw.value)))
  }

  /** `verify_metadata` with the sender's key: the signature must be over the canonical metadata. */
  function Authenticate(p: Primitives, signature: Option<Bytes>, metadata: map<string, Value>, senderSigningPublic: Bytes): (r: Result<Bytes, CryptoError>)
    ensures r.Ok? <==>
              && |senderSigningPublic| == PublicKeyBytes && signature.Some?
              && p.verify(senderSigningPublic, signature.value, p.canonical(metadata))
    ensures r.Err? ==> r.error == InvalidPublicKey || r.error == MalformedBase64 || r.error == InvalidSignature
  {
    if |senderSigningPublic| != PublicKeyBytes then Err(InvalidPublicKey)
    else if signature.None? then Err(MalformedBase64)
    else if p.verify(senderSigningPublic, signature.value, p.canonical(metadata)) then Ok(signature.value)
    else Err(InvalidSignature)
  }

  /** `now - issued > ttl` raises; reading either number may raise first. */
  function CheckFresh(d: Fields, now: int): (r: Result<int, CryptoError>)
    ensures r.Ok? <==> d.timestamp.Some? && d.ttl.Some? && !Stale(d.timestamp.value, d.ttl.value, now)
    ensures r.Err? ==> r.error == MalformedMetadata || r.error == MessageExpired
    ensures r == Err(MessageExpired) <==> d.timestamp.Some? && d.ttl.Some? && Stale(d.timestamp.value, d.ttl.value, now)
  {
    if d.timestamp.None? || d.ttl.None? then Err(MalformedMetadata)
    else if Stale(d.timestamp.value, d.ttl.value, now) then Err(MessageExpired)
    else Ok(d.ttl.value)
  }

  /**
   * The AES-GCM payload, opened with the session key and read as UTF-8.  The
   * three fields are decoded first, as arguments of `aes_gcm_decrypt`; the
   * nonce length is checked before the tag.
   */
  function OpenPayload(p: Primitives, d: Fields, key: Bytes): (r: Result<string, CryptoError>)
    ensures r.Err? ==> r.error == MalformedBase64 || r.error == InvalidNonce || r.error == InvalidTag || r.error == InvalidUtf8
    ensures r == Err(MalformedBase64) <==> d.ciphertext.None? || d.tag.None? || d.nonce.None?
    ensures r == Err(InvalidNonce) <==>
              d.ciphertext.Some? && d.tag.Some? && d.nonce.Some? && !AesGcm.NonceAccepted(d.nonce.value)
    ensures r.Ok? ==> && d.ciphertext.Some? && d.tag.Some? && d.nonce.Some?
                      && var plain := AesGcm.Decrypt(p.aead, d.ciphertext.value, d.tag.value, d.nonce.value, key);
                         plain.Ok? && p.utf8Decode(plain.value) == Some(r.value)
  {
    if d.ciphertext.None? || d.tag.None? || d.nonce.None? then Err(MalformedBase64)
    else
      match AesGcm.Decrypt(p.aead, d.ciphertext.value, d.tag.value, d.nonce.value, key)
      case Err(BadNonceLength) => Err(InvalidNonce)
      case Err(BadTag) => Err(InvalidTag)
      case Ok(plaintext) =>
        if p.utf8Decode(plaintext).None? then Err(InvalidUtf8)
        else Ok(p.utf8Decode(plaintext).value)
  }

  /**
   * The first failure among the steps of `decrypt_bundle`, taken in order;
   * the payload counts only once every check before it has passed.
   */
  function FirstFailure(key: Result<Bytes, CryptoError>, signature: Result<Bytes, CryptoError>,
                        freshness: Result<int, CryptoError>, payload: Result<string, CryptoError>): (r: Result<string, CryptoError>)
    ensures r.Ok? <==> key.Ok? && signature.Ok? && freshness.Ok? && payload.Ok?
  {
    if key.Err? then Err(key.error)
    else if signature.Err? then Err(signature.error)
    else if freshness.Err? then Err(freshness.error)
    else payload
  }

  /**
   * The checks of `decrypt_bundle` over the decoded fields, in the source's
   * order: the session key, the sender's signature over the metadata, the
   * freshness rule, and only then AES-GCM and UTF-8 decoding.  Without a
   * session key there is no payload; the placeholder is never the result.
   */
  function Decrypt(p: Primitives, d: Fields, metadata: map<string, Value>, recipientPrivate: Bytes,
                   senderSigningPublic: Bytes, now: int): (r: Result<string, CryptoError>)
    ensures r.Ok? <==>
              && SessionKey(p, d.ephemeralPubkey, recipientPrivate).Ok?
              && Authenticate(p, d.signature, metadata, senderSigningPublic).Ok?
              && CheckFresh(d, now).Ok?
              && OpenPayload(p, d, SessionKey(p, d.ephemeralPubkey, recipientPrivate).value).Ok?
    ensures r.Ok? ==> r == OpenPayload(p, d, SessionKey(p, d.ephemeralPubkey, recipientPrivate).value)
  {
    var key := SessionKey(p, d.ephemeralPubkey, recipientPrivate);
    FirstFailure(key, Authenticate(p, d.signature, metadata, senderSigningPublic), CheckFresh(d, now),
                 if key.Ok? then OpenPayload(p, d, key.value) else Err(MalformedBase64))
  }

  /**
   * `decrypt_bundle`.  Decoding a field raises nothing but `binascii.Error`
   * and has no effect, so decoding all five first and then running the
   * checks in order gives the same outcome as decoding each where it is used.
   */
  function DecryptBundle(p: Primitives, e: Envelope, recipientPrivate: Bytes, senderSigningPublic: Bytes, now: int): (r: Result<string, CryptoError>)
    ensures r.Ok? ==>
              && Base64.Decode(e.ephemeralPubkey).Some? && |Base64.Decode(e.ephemeralPubkey).value| == PublicKeyBytes
              && |senderSigningPublic| == PublicKeyBytes && Base64.Decode(e.signature).Some?
              && p.verify(senderSigningPublic, Base64.Decode(e.signature).value, p.canonical(e.metadata))
    ensures r.Ok? ==>
              && "timestamp" in e.metadata && e.metadata["timestamp"].Num?
              && "ttl" in e.metadata && e.metadata["ttl"].Num?
              && !Stale(e.metadata["timestamp"].n, e.metadata["ttl"].n, now)
  {
    Decrypt(p, ReadFields(e), e.metadata, recipientPrivate, senderSigningPublic, now)
  }

  /** Plaintext comes only out of a message whose signature verifies and which is still fresh. */
  lemma DecryptedIsAuthenticAndFresh(p: Primitives, d: Fields, metadata: map<string, Value>, recipientPrivate: Bytes,
                                     senderSigningPublic: Bytes, now: int)
    requires Decrypt(p, d, metadata, recipientPrivate, senderSigningPublic, now).Ok?
    ensures SessionKey(p, d.ephemeralPubkey, recipientPrivate).Ok?
    ensures Authenticate(p, d.signature, metadata, senderSigningPublic).Ok?
    ensures CheckFresh(d, now).Ok?
  {
  }

  /** Expiry is reported only for a message that is authentic and past its `ttl`. */
  lemma ExpiredIsAuthentic(p: Primitives, d: Fields, metadata: map<string, Value>, recipientPrivate: Bytes,
                           senderSigningPublic: Bytes, now: int)
    requires Decrypt(p, d, metadata, recipientPrivate, senderSigningPublic, now) == Err(MessageExpired)
    ensures Authenticate(p, d.signature, metadata, senderSigningPublic).Ok?
    ensures d.timestamp.Some? && d.ttl.Some? && Stale(d.timestamp.value, d.ttl.value, now)
  {
  }

  /**
   * Which exception a failing message raises: the first check it fails, in
   * the source's order.
   */
  lemma FirstFailureReported(p: Primitives, d: Fields, metadata: map<string, Value>, recipientPrivate: Bytes,
                             senderSigningPublic: Bytes, now: int)
    ensures d.ephemeralPubkey.None? ==>
              Decrypt(p, d, metadata, recipientPrivate, senderSigningPublic, now) == Err(MalformedBase64)
    ensures d.ephemeralPubkey.Some? && |d.ephemeralPubkey.value| != PublicKeyBytes ==>
              Decrypt(p, d, metadata, recipientPrivate, senderSigningPublic, now) == Err(InvalidPublicKey)
    ensures SessionKey(p, d.ephemeralPubkey, recipientPrivate).Ok? && |senderSigningPublic| != PublicKeyBytes ==>
              Decrypt(p, d, metadata, recipientPrivate, senderSigningPublic, now) == Err(InvalidPublicKey)
    ensures SessionKey(p, d.ephemeralPubkey, recipientPrivate).Ok? && |senderSigningPublic| == PublicKeyBytes
            && d.signature.None? ==>
              Decrypt(p, d, metadata, recipientPrivate, senderSigningPublic, now) == Err(MalformedBase64)
    ensures SessionKey(p, d.ephemeralPubkey, recipientPrivate).Ok?
            && Authenticate(p, d.signature, metadata, senderSigningPublic).Ok?
            && (d.timestamp.None? || d.ttl.None?) ==>
              Decrypt(p, d, metadata, recipientPrivate, senderSigningPublic, now) == Err(MalformedMetadata)
  {
    var key := SessionKey(p, d.ephemeralPubkey, recipientPrivate);
    var auth := Authenticate(p, d.signature, metadata, senderSigningPublic);
    var r := Decrypt(p, d, metadata, recipientPrivate, senderSigningPublic, now);
    if key.Err? {
      assert r == Err(key.error);
    } else if auth.Err? {
      assert r == Err(auth.error);
    } else if d.timestamp.None? || d.ttl.None? {
      assert r == Err(MalformedMetadata);
    }
  }

  /**
   * A signature that does not verify is reported as such whatever the clock
   * says and whatever the ciphertext fields and the cipher are: the check
   * comes before the freshness rule and before AES-GCM.
   */
  lemma SignatureCheckedFirst(p: Primitives, d: Fields, metadata: map<string, Value>, recipientPrivate: Bytes,
                              senderSigningPublic: Bytes, now: int,
                              aead: AesGcm.Aead, ciphertext: Option<Bytes>, tag: Option<Bytes>, nonce: Option<Bytes>)
    requires d.ephemeralPubkey.Some? && |d.ephemeralPubkey.value| == PublicKeyBytes
    requires |senderSigningPublic| == PublicKeyBytes && d.signature.Some?
    requires !p.verify(senderSigningPublic, d.signature.value, p.canonical(metadata))
    ensures Decrypt(p.(aead := aead), d.(ciphertext := ciphertext, tag := tag, nonce := nonce), metadata,
                    recipientPrivate, senderSigningPublic, now) == Err(InvalidSignature)
  {
    assert Authenticate(p.(aead := aead), d.signature, metadata, senderSigningPublic) == Err(InvalidSignature);
  }

  /**
   * An authentic message past its `ttl` is rejected as expired without the
   * AEAD: the result is the same for every cipher and every ciphertext.
   */
  lemma ExpiredBeforeAead(p: Primitives, d: Fields, metadata: map<string, Value>, recipientPrivate: Bytes,
                          senderSigningPublic: Bytes, now: int,
                          aead: AesGcm.Aead, ciphertext: Option<Bytes>, tag: Option<Bytes>, nonce: Option<Bytes>)
    requires SessionKey(p, d.ephemeralPubkey, recipientPrivate).Ok?
    requires Authenticate(p, d.signature, metadata, senderSigningPublic).Ok?
    requires d.timestamp.Some? && d.ttl.Some? && Stale(d.timestamp.value, d.ttl.value, now)
    ensures Decrypt(p.(aead := aead), d.(ciphertext := ciphertext, tag := tag, nonce := nonce), metadata,
                    recipientPrivate, senderSigningPublic, now) == Err(MessageExpired)
  {
    assert SessionKey(p.(aead := aead), d.ephemeralPubkey, recipientPrivate).Ok?;
    assert Authenticate(p.(aead := aead), d.signature, metadata, senderSigningPublic).Ok?;
    assert CheckFresh(d, now) == Err(MessageExpired);
  }

  /**
   * The clock enters only through the freshness rule: at any two readings
   * where the message is not yet stale, including the boundary
   * `now - timestamp == ttl`, decryption gives the same result, and that
   * result is never `MessageExpired`.
   */
  lemma ClockOnlyDecidesExpiry(p: Primitives, d: Fields, metadata: map<string, Value>, recipientPrivate: Bytes,
                               senderSigningPublic: Bytes, now1: int, now2: int)
    requires d.timestamp.Some? && d.ttl.Some?
    requires !Stale(d.timestamp.value, d.ttl.value, now1) && !Stale(d.timestamp.value, d.ttl.value, now2)
    ensures Decrypt(p, d, metadata, recipientPrivate, senderSigningPublic, now1)
         == Decrypt(p, d, metadata, recipientPrivate, senderSigningPublic, now2)
    ensures Decrypt(p, d, metadata, recipientPrivate, senderSigningPublic, now1) != Err(MessageExpired)
  {
    assert CheckFresh(d, now1) == CheckFresh(d, now2) == Ok(d.ttl.value);
    var key := SessionKey(p, d.ephemeralPubkey, recipientPrivate);
    var auth := Authenticate(p, d.signature, metadata, senderSigningPublic);
    var r1 := Decrypt(p, d, metadata, recipientPrivate, senderSigningPublic, now1);
    var r2 := Decrypt(p, d, metadata, recipientPrivate, senderSigningPublic, now2);
    if key.Err? {
      assert r1 == r2 == Err(key.error);
    } else if auth.Err? {
      assert r1 == r2 == Err(auth.error);
    } else {
      assert r1 == r2 == OpenPayload(p, d, key.value);
    }
  }

  /** A message exactly `ttl` seconds old is not rejected as expired. */
  lemma BoundaryAccepted(p: Primitives, e: Envelope, recipientPrivate: Bytes, senderSigningPublic: Bytes)
    requires "timestamp" in e.metadata && e.metadata["timestamp"].Num?
    requires "ttl" in e.metadata && e.metadata["ttl"].Num?
    ensures DecryptBundle(p, e, recipientPrivate, senderSigningPublic, e.metadata["timestamp"].n + e.metadata["ttl"].n)
            != Err(MessageExpired)
  {
    var now := e.metadata["timestamp"].n + e.metadata["ttl"].n;
    ClockOnlyDecidesExpiry(p, ReadFields(e), e.metadata, recipientPrivate, senderSigningPublic, now, now);
  }

  /** The two parties derive the same AES key: `exchange` is symmetric. */
  lemma SharedKeyAgrees(p: Primitives, ephemeralPrivate: Bytes, recipientPrivate: Bytes)
    requires DhSymmetric(p)
    ensures DeriveAesKey(p, p.exchange(ephemeralPrivate, p.x25519Public(recipientPrivate)))
         == DeriveAesKey(p, p.exchange(recipientPrivate, p.x25519Public(ephemeralPrivate)))
  {
  }

  /** A payload framed as the sealed content, under a nonce AES-GCM accepts, opens back to the content. */
  lemma PayloadOpens(p: Primitives, d: Fields, key: Bytes, content: string)
    requires AesGcm.Correct(p.aead) && Utf8RoundTrips(p)
    requires d.ciphertext.Some? && d.tag.Some? && d.nonce.Some? && AesGcm.NonceAccepted(d.nonce.value)
    requires d.ciphertext.value + d.tag.value == p.aead.seal(key, d.nonce.value, p.utf8Encode(content))
    ensures OpenPayload(p, d, key) == Ok(content)
  {
    assert AesGcm.Decrypt(p.aead, d.ciphertext.value, d.tag.value, d.nonce.value, key) == Ok(p.utf8Encode(content));
  }

  /** Decryption of decoded fields that pass every check gives the payload. */
  lemma DecryptAccepts(p: Primitives, d: Fields, metadata: map<string, Value>, recipientPrivate: Bytes,
                       senderSigningPublic: Bytes, now: int, key: Bytes)
    requires SessionKey(p, d.ephemeralPubkey, recipientPrivate) == Ok(key)
    requires Authenticate(p, d.signature, metadata, senderSigningPublic).Ok?
    requires CheckFresh(d, now).Ok?
    ensures Decrypt(p, d, metadata, recipientPrivate, senderSigningPublic, now) == OpenPayload(p, d, key)
  {
  }

  /** What `decrypt_bundle` reads out of an envelope that `encrypt_bundle` made: the values that went in. */
  lemma ReadFieldsOfEnvelope(p: Primitives, content: string, senderSigningPrivate: Bytes, recipientPublic: Bytes,
                             senderId: string, contentType: string,
                             ephemeralPrivate: Bytes, aesNonce: Bytes, metadataRandom: Bytes, now: int)
    requires |aesNonce| == AesGcm.NonceBytes && |metadataRandom| == RandomBytes && |recipientPublic| == PublicKeyBytes
    ensures var e := EncryptBundle(p, content, senderSigningPrivate, recipientPublic, senderId, contentType,
                                   ephemeralPrivate, aesNonce, metadataRandom, now).value;
            var d := ReadFields(e);
            && d.ephemeralPubkey == Some(p.x25519Public(ephemeralPrivate))
            && d.signature == Some(p.sign(senderSigningPrivate, p.canonical(e.metadata)))
            && d.timestamp == Some(now)
            && d.ttl == Some(CreateMetadata(senderId, contentType, now, metadataRandom).ttl)
            && d.nonce == Some(aesNonce)
            && d.ciphertext.Some? && d.tag.Some?
            && d.ciphertext.value + d.tag.value
               == p.aead.seal(DeriveAesKey(p, p.exchange(ephemeralPrivate, recipientPublic)), aesNonce, p.utf8Encode(content))
  {
  }

  /**
   * Round trip: the recipient, holding the private key matching the public
   * key the sender encrypted to, and the sender's signing key, recovers the
   * content at any time up to the metadata's `ttl` after encryption.
   */
  lemma DecryptEncrypt(p: Primitives, content: string, senderSigningPrivate: Bytes, recipientPrivate: Bytes,
                       senderId: string, contentType: string,
                       ephemeralPrivate: Bytes, aesNonce: Bytes, metadataRandom: Bytes, now: int, later: int)
    requires Sound(p)
    requires |aesNonce| == AesGcm.NonceBytes && |metadataRandom| == RandomBytes
    requires later - now <= CreateMetadata(senderId, contentType, now, metadataRandom).ttl
    ensures EncryptBundle(p, content, senderSigningPrivate, p.x25519Public(recipientPrivate), senderId, contentType,
                          ephemeralPrivate, aesNonce, metadataRandom, now).Ok?
    ensures DecryptBundle(p, EncryptBundle(p, content, senderSigningPrivate, p.x25519Public(recipientPrivate), senderId,
                                           contentType, ephemeralPrivate, aesNonce, metadataRandom, now).value,
                          recipientPrivate, p.ed25519Public(senderSigningPrivate), later) == Ok(content)
  {
    var recipientPublic := p.x25519Public(recipientPrivate);
    var senderPublic := p.ed25519Public(senderSigningPrivate);
    assert |recipientPublic| == PublicKeyBytes;
    var e := EncryptBundle(p, content, senderSigningPrivate, recipientPublic, senderId, contentType,
                           ephemeralPrivate, aesNonce, metadataRandom, now).value;
    ReadFieldsOfEnvelope(p, content, senderSigningPrivate, recipientPublic, senderId, contentType,
                         ephemeralPrivate, aesNonce, metadataRandom, now);
    var d := ReadFields(e);
    var key := DeriveAesKey(p, p.exchange(ephemeralPrivate, recipientPublic));
    SharedKeyAgrees(p, ephemeralPrivate, recipientPrivate);
    assert |p.x25519Public(ephemeralPrivate)| == PublicKeyBytes;
    assert SessionKey(p, d.ephemeralPubkey, recipientPrivate) == Ok(key);
    assert |senderPublic| == PublicKeyBytes;
    assert p.verify(senderPublic, p.sign(senderSigningPrivate, p.canonical(e.metadata)), p.canonical(e.metadata));
    assert Authenticate(p, d.signature, e.metadata, senderPublic).Ok?;
    assert CheckFresh(d, later).Ok?;
    DecryptAccepts(p, d, e.metadata, recipientPrivate, senderPublic, later, key);
    PayloadOpens(p, d, key, content);
  }

  /** The envelope as the JSON object uploaded to the relay. */
  function ToWire(e: Envelope): (b: Bundle)
    ensures b.fields.Keys == {"ciphertext", "nonce", "tag", "ephemeral_pubkey", "signature"}
    ensures b.metadata == e.metadata
  {
    Bundle(map["ciphertext" := Str(e.ciphertext), "nonce" := Str(e.nonce), "tag" := Str(e.tag),
               "ephemeral_pubkey" := Str(e.ephemeralPubkey), "signature" := Str(e.signature)],
           e.metadata)
  }

  /**
   * What the relay reads from a fresh envelope: the sender id (present when
   * not empty), the 32-digit metadata nonce (always present, so the replay
   * guard always sees one), and the content type (lowercased, "text" when empty).
   */
  lemma RelayReadsEnvelope(e: Envelope, m: Metadata)
    requires e.metadata == ToDict(m) && |m.nonce| == 2 * RandomBytes
    ensures Lookup(ToWire(e), "nonce") == Some(Str(m.nonce))
    ensures Lookup(ToWire(e), "sender_id") == if m.senderId == "" then None else Some(Str(m.senderId))
    ensures TtlManager.ExtractContentType(ToWire(e)) == if m.contentType == "" then "text" else Text.Lower(m.contentType)
  {
    var b := ToWire(e);
    assert Get(b.metadata, "nonce") == Some(Str(m.nonce));
    assert Get(b.metadata, "sender_id") == Some(Str(m.senderId));
    assert Get(b.metadata, "content_type") == Some(Str(m.contentType));
    assert Get(b.fields, "sender_id").None? && Get(b.fields, "content_type").None?;
  }
}
