/**
 * `aes_gcm_encrypt` / `aes_gcm_decrypt`: the framing around an AEAD cipher.
 * The cipher is abstract: `seal(key, nonce, plaintext)` gives ciphertext
 * with the tag appended, and `open(key, nonce, sealed)` gives the plaintext
 * back or None when the tag does not check.  No associated data is used.
 * `AESGCM.decrypt` checks the nonce length before it looks at the tag.
 */
module AesGcm {
  import opened Wrappers
  import opened Bytes

  datatype Aead = Aead(seal: (Bytes, Bytes, Bytes) -> Bytes, open: (Bytes, Bytes, Bytes) -> Option<Bytes>)

  /** Length of the authentication tag and of the nonce, in bytes. */
  const TagBytes: nat := 16
  const NonceBytes: nat := 12

  /** The nonce lengths `AESGCM.decrypt` accepts; any other raises `ValueError`. */
  const MinNonceBytes: nat := 8
  const MaxNonceBytes: nat := 128

  predicate NonceAccepted(nonce: Bytes)
  {
    MinNonceBytes <= |nonce| <= MaxNonceBytes
  }

  /** Why `AESGCM.decrypt` raises: `ValueError` for the nonce length, or `InvalidTag`. */
  datatype DecryptError = BadNonceLength | BadTag

  /** Decryption inverts encryption under the same key and nonce. */
  ghost predicate Correct(a: Aead)
  {
    forall k, n, m :: a.open(k, n, a.seal(k, n, m)) == Some(m)
  }

  /** The cipher's output is the plaintext's length plus one tag. */
  ghost predicate AppendsTag(a: Aead)
  {
    forall k, n, m :: |a.seal(k, n, m)| == |m| + TagBytes
  }

  /** Python's `s[:-k]` for `k > 0`: all but the last `k` elements, empty when `s` is shorter. */
  function DropLast(s: Bytes, k: nat): (r: Bytes)
    requires k > 0
    ensures |r| == if |s| >= k then |s| - k else 0
    ensures r == s[..|r|]
  {
    if |s| >= k then s[..|s| - k] else []
  }

  /** Python's `s[-k:]`: the last `k` elements, all of `s` when shorter. */
  function TakeLast(s: Bytes, k: nat): (r: Bytes)
    requires k > 0
    ensures |r| == if |s| >= k then k else |s|
    ensures r == s[|s| - |r|..]
  {
    if |s| >= k then s[|s| - k..] else s
  }

  /** Python slicing splits any sequence into its two halves. */
  lemma DropTakeLast(s: Bytes, k: nat)
    requires k > 0
    ensures DropLast(s, k) + TakeLast(s, k) == s
  {
    var d, t := DropLast(s, k), TakeLast(s, k);
    assert |d| + |t| == |s|;
    assert s == s[..|d|] + s[|d|..];
  }

  datatype Encrypted = Encrypted(ciphertext: Bytes, tag: Bytes, nonce: Bytes)

  /** `aes_gcm_encrypt`; `nonce` stands for the 12 fresh random bytes. */
  function Encrypt(a: Aead, plaintext: Bytes, key: Bytes, nonce: Bytes): (e: Encrypted)
    requires |nonce| == NonceBytes
    ensures e.ciphertext + e.tag == a.seal(key, nonce, plaintext)
    ensures e.nonce == nonce && |e.nonce| == NonceBytes
    ensures |a.seal(key, nonce, plaintext)| >= TagBytes ==>
              |e.tag| == TagBytes && e.tag == a.seal(key, nonce, plaintext)[|a.seal(key, nonce, plaintext)| - TagBytes..]
  {
    var out := a.seal(key, nonce, plaintext);
    DropTakeLast(out, TagBytes);
    Encrypted(DropLast(out, TagBytes), TakeLast(out, TagBytes), nonce)
  }

  /** `AESGCM(key).decrypt(nonce, data, None)`. */
  function Open(a: Aead, key: Bytes, nonce: Bytes, data: Bytes): (r: Result<Bytes, DecryptError>)
    ensures r == Err(BadNonceLength) <==> !NonceAccepted(nonce)
    ensures r.Ok? ==> NonceAccepted(nonce) && a.open(key, nonce, data) == Some(r.value)
    ensures NonceAccepted(nonce) && a.open(key, nonce, data).None? ==> r == Err(BadTag)
  {
    if !NonceAccepted(nonce) then Err(BadNonceLength)
    else
      match a.open(key, nonce, data)
      case Some(m) => Ok(m)
      case None => Err(BadTag)
  }

  /** `aes_gcm_decrypt`: the two parts are rejoined before opening. */
  function Decrypt(a: Aead, ciphertext: Bytes, tag: Bytes, nonce: Bytes, key: Bytes): (r: Result<Bytes, DecryptError>)
    ensures r == Err(BadNonceLength) <==> !NonceAccepted(nonce)
    ensures r.Ok? ==> NonceAccepted(nonce) && a.open(key, nonce, ciphertext + tag) == Some(r.value)
    ensures NonceAccepted(nonce) && a.open(key, nonce, ciphertext + tag).None? ==> r == Err(BadTag)
  {
    Open(a, key, nonce, ciphertext + tag)
  }

  /**
   * The framing is lossless: what `Encrypt` splits under its 12-byte nonce,
   * `Decrypt` opens to the plaintext.
   */
  lemma DecryptEncrypt(a: Aead, plaintext: Bytes, key: Bytes, nonce: Bytes)
    requires Correct(a) && |nonce| == NonceBytes
    ensures var e := Encrypt(a, plaintext, key, nonce);
            Decrypt(a, e.ciphertext, e.tag, e.nonce, key) == Ok(plaintext)
  {
  }

  /** With a cipher that appends a tag, the ciphertext part is as long as the plaintext. */
  lemma CiphertextLength(a: Aead, plaintext: Bytes, key: Bytes, nonce: Bytes)
    requires AppendsTag(a) && |nonce| == NonceBytes
    ensures var e := Encrypt(a, plaintext, key, nonce);
            |e.ciphertext| == |plaintext| && |e.tag| == TagBytes
  {
  }
}
