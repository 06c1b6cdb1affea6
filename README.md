# Secure clipboard exchange: a Dafny model

SCCSE lets two paired devices pass clipboard content through an untrusted
relay. This project models two parts of it and proves properties of them:

- the relay's storage: a replay-guarded store with one slot per recipient,
  storage TTLs and one-time delivery;
- the envelope that protects each message: ephemeral X25519, HKDF, AES-GCM,
  an Ed25519 signature over the metadata, and a freshness rule.

It also models the two client rules the relay depends on: how clipboard
content is classified, and how the encrypted local history is updated.

Files and modules:

| file | module | models |
|---|---|---|
| wrappers.dfy | `Wrappers` | `Option` and `Result` |
| json.dfy | `Json` | the JSON values the relay reads, Python truthiness, `d.get`, `a or b`, `str()` |
| schemas.dfy | `Schemas` | the relay's view of a bundle and the `meta.get(k) or bundle.get(k)` lookup |
| text.dfy | `Text` | `str.strip`, `str.lower` and the character classes |
| bytes.dfy | `Bytes` | bytes and `bytes.hex()` |
| base64.dfy | `Base64` | `b64e` / `b64d` |
| metadata.dfy | `Metadata` | `create_metadata` |
| aes_gcm.dfy | `AesGcm` | the ciphertext/tag framing around an abstract AEAD |
| hybrid_encrypt.dfy | `HybridEncrypt` | `encrypt_bundle` / `decrypt_bundle` over abstract primitives |
| replay_protection.dfy | `ReplayProtection` | the per-sender nonce windows (class `ReplayGuard`) |
| database.dfy | `Database` | the in-memory store (class `Store`) |
| ttl_manager.dfy | `TtlManager` | storage TTLs, `is_expired` and the `cleanup_expired` sweep |
| relay.dfy | `Relay` | the `upload` / `fetch` / `cleanup` / `health` handlers (class `RelayServer`) |
| clipboard.dfy | `Clipboard` | `detect_content_type` |
| history.dfy | `History` | the history list rule and its encrypted file (class `HistoryStore`) |

The relay's two global maps are class fields that methods update. Each
handler is proved to have exactly the effect of a function on the relay
state (`UploadStep`, `FetchStep`, `CleanupStep`), and the protocol
properties are lemmas about those functions.

The crypto code is modelled as pure functions. X25519, HKDF, Ed25519,
AES-GCM, the JSON canonicaliser and UTF-8 are function-typed fields of a
`Primitives` value. The facts the proofs need about them are stated as
hypotheses:

- Diffie-Hellman symmetry;
- a signature verifies under its own public key;
- AEAD decryption inverts encryption;
- UTF-8 decoding inverts encoding;
- public keys are 32 bytes.

Several inputs become parameters:

- every clock reading is an integer parameter `now`, in seconds;
- every random draw (the ephemeral key, the 12-byte nonces, the 16 metadata
  bytes) is a parameter;
- each file a component reads is a parameter or a field.

Three facts about the code shape the model:

- `load_public_key` and `derive_shared_secret` do not check for low-order
  X25519 keys (crypto/x25519_keys.py:18-22), and neither does the model.
- Nothing locks the relay's two maps. The model has sequential calls only.
- `decrypt_bundle` does not report failures uniformly, but most of them share
  one exception class. Only a bad signature (`InvalidSignature`) and a failed
  tag check (`InvalidTag`) have classes of their own. A missing or
  non-numeric `timestamp` or `ttl` raises `KeyError` or `TypeError`.
  Everything else raises `ValueError` or a subclass of it:
  - a key that is not 32 bytes;
  - text that is not base64 (`binascii.Error`);
  - an expired message;
  - a nonce outside 8 to 128 bytes;
  - plaintext that is not UTF-8 (`UnicodeDecodeError`).

  `HybridEncrypt.CryptoError` tells all of these apart, which is finer than
  the exception classes.

## Model

| member | source | states |
|---|---|---|
| Json.Get | server/main.py:34-36 | `d.get(k)` is present exactly when the key is, with the stored value |
| Json.FirstTruthy | server/main.py:35-36 | `a or b` as a presence test: the first truthy operand, nothing when neither is truthy |
| Json.ToStr | server/ttl_manager.py:27 | `str(v)` keeps a string and renders an integer as a non-empty numeral |
| Schemas.Lookup | server/main.py:34-37 | a truthy metadata entry wins, else a truthy top-level entry, else nothing; whatever is found is truthy |
| Text.LStrip | client/clipboard.py:10 | drops a prefix made only of whitespace and keeps the rest unchanged; the result does not start with whitespace |
| Text.RStrip | client/clipboard.py:10 | drops a suffix made only of whitespace and keeps the rest unchanged; the result does not end with whitespace |
| Text.Strip | client/clipboard.py:10 | drops a prefix and a suffix made only of whitespace and keeps the middle unchanged; the result neither starts nor ends with whitespace |
| Text.LStripSpacePrefix | client/clipboard.py:10 | leading whitespace added in front is removed by `lstrip` |
| Text.RStripSpaceSuffix | client/clipboard.py:10 | trailing whitespace added at the end is removed by `rstrip` |
| Text.LStripAppend | client/clipboard.py:10 | `lstrip` of a concatenation: the stripped first part followed by the second, unless the first part is all whitespace |
| Text.StripIgnoresPadding | client/clipboard.py:10 | `strip` ignores whitespace added on either side |
| Text.StripIdempotent | client/clipboard.py:10 | stripping twice is stripping once |
| Text.Lower | server/ttl_manager.py:27 | same length, each character mapped by the ASCII case mapping |
| Bytes.Hex | crypto/metadata.py:12 | two lowercase hex digits per byte |
| Bytes.UnHex | crypto/metadata.py:12 | parses exactly the even-length strings of hex digits, one byte per two digits |
| Bytes.HexAt | crypto/metadata.py:12 | byte `i` is written at positions `2i` and `2i+1`, high nibble first |
| Bytes.UnHexHex | crypto/metadata.py:12 | every byte string is read back from its hex form |
| Bytes.Ascii | crypto/x25519_keys.py:29 | the byte string of ASCII text, one byte per character |
| Base64.Encode | crypto/hybrid_encrypt.py:4-5 | four characters per started group of three bytes, each from the alphabet or `=` |
| Base64.Step | crypto/hybrid_encrypt.py:7-8 | a data character moves one place through the group of four; every character after the first of a group writes exactly one byte; bytes already written are kept |
| Base64.Run | crypto/hybrid_encrypt.py:7-8 | decoding from a state only appends to the bytes already written, at most one byte per character read |
| Base64.Decode | crypto/hybrid_encrypt.py:7-8 | never more bytes than characters; the empty text decodes to no bytes |
| Base64.DecodeEncode | crypto/hybrid_encrypt.py:4-8 | `b64d(b64e(b)) == b` for every byte string |
| Base64.DataAfterPaddingIgnored | crypto/hybrid_encrypt.py:7-8 | once padding completes the last group, what follows is not read: `b64d("QQ==" + t)` is `b"A"` for every `t` |
| Base64.WholeGroupsThenRest | crypto/hybrid_encrypt.py:7-8 | after the encoding of whole triples, the rest of the text decodes as it would alone and is appended, and it fails exactly when the rest fails alone; so a stray `=` after them is skipped |
| Base64.OthersIgnored | crypto/hybrid_encrypt.py:7-8 | characters outside the alphabet and `=` do not change the result |
| Base64.UnpaddedDecodes | crypto/hybrid_encrypt.py:7-8 | text without `=` decodes exactly when its alphabet characters fill whole groups of four |
| Metadata.LevelName | crypto/metadata.py:5 | the level is written `HIGH` exactly for the high level |
| Metadata.CreateMetadata | crypto/metadata.py:4-16 | the level is high exactly for content type `password` (case-sensitive); TTL 30 for high, else 300; sender and content type copied; timestamp is the clock; nonce is the 32-digit hex of the 16 random bytes |
| Metadata.ToDict | crypto/metadata.py:9-16 | exactly the six keys, each holding its field |
| AesGcm.DropLast | crypto/aes_gcm.py:10 | Python's `s[:-16]`: all but the last 16 bytes, empty when shorter |
| AesGcm.TakeLast | crypto/aes_gcm.py:11 | Python's `s[-16:]`: the last 16 bytes, all of `s` when shorter |
| AesGcm.DropTakeLast | crypto/aes_gcm.py:10-11 | the two slices rejoin to the whole |
| AesGcm.Encrypt | crypto/aes_gcm.py:4-13 | ciphertext followed by tag is the AEAD output; the tag is its last 16 bytes; the nonce is the 12 given bytes |
| AesGcm.Open | crypto/aes_gcm.py:16-17 | `AESGCM.decrypt`: a nonce outside 8 to 128 bytes is a length error whatever the data; otherwise the result is what the AEAD opens, and a failed open is a tag error |
| AesGcm.Decrypt | crypto/aes_gcm.py:15-17 | the same for ciphertext and tag joined: a length error exactly for a nonce outside 8 to 128 bytes, a tag error when the joined bytes do not open |
| AesGcm.DecryptEncrypt | crypto/aes_gcm.py:4-17 | given AEAD correctness, decrypting what was encrypted succeeds with the plaintext |
| AesGcm.CiphertextLength | crypto/aes_gcm.py:7-11 | for a cipher that appends a 16-byte tag, the ciphertext part is as long as the plaintext |
| HybridEncrypt.LoadPublicKey | crypto/x25519_keys.py:18-19 | a raw public key loads exactly when it is 32 bytes; otherwise it raises |
| HybridEncrypt.EncryptBundle | crypto/hybrid_encrypt.py:23-46 | fails exactly on a recipient key that is not 32 bytes; the metadata is `create_metadata`'s; the signature decodes to the signature of the canonical metadata; nonce, ephemeral key, ciphertext and tag decode to the AES-GCM framing under the key derived from the ephemeral exchange |
| HybridEncrypt.DeriveAesKey | crypto/x25519_keys.py:24-30 | for an HKDF that yields the 32 bytes asked for, the AES key is 32 bytes |
| HybridEncrypt.ReadFields | crypto/hybrid_encrypt.py:53-78 | each binary field is the `b64d` of the envelope's field, None where that raises; `timestamp` and `ttl` are read exactly when the metadata holds a number there, with that number |
| HybridEncrypt.ReadFieldsOfEnvelope | crypto/hybrid_encrypt.py:23-78 | reading an envelope made by `encrypt_bundle` gives back its ephemeral public key, its signature, the clock, the TTL, the nonce, and a ciphertext and tag that join to the sealed content |
| HybridEncrypt.NumberField | crypto/hybrid_encrypt.py:67-68 | a metadata number is read exactly when the key holds a number |
| HybridEncrypt.SessionKey | crypto/hybrid_encrypt.py:53-55 | succeeds exactly on a decodable 32-byte ephemeral key, with the HKDF of the exchange; fails only with a base64 or key error |
| HybridEncrypt.Authenticate | crypto/hybrid_encrypt.py:58-64 | succeeds exactly when the sender key is 32 bytes, the signature decodes and verifies over the canonical metadata |
| HybridEncrypt.CheckFresh | crypto/hybrid_encrypt.py:66-71 | passes exactly when both numbers are present and `now - timestamp <= ttl`; reports expiry exactly when both are present and `now - timestamp > ttl` |
| HybridEncrypt.OpenPayload | crypto/hybrid_encrypt.py:73-80 | a base64 error exactly when a field does not decode; a nonce error exactly when the fields decode and the nonce is outside 8 to 128 bytes; otherwise a tag or UTF-8 error, or plaintext, which comes only when AES-GCM opens the framing and the bytes are valid UTF-8 |
| HybridEncrypt.Decrypt | crypto/hybrid_encrypt.py:53-80 | succeeds exactly when the session key, the signature check, the freshness check and the payload all succeed, and then gives the opened payload |
| HybridEncrypt.DecryptBundle | crypto/hybrid_encrypt.py:49-80 | plaintext only when the ephemeral key decodes to 32 bytes, the sender key is 32 bytes, the signature decodes and verifies over the canonical metadata, and the metadata holds a numeric `timestamp` and `ttl` that are not stale |
| HybridEncrypt.FirstFailure | crypto/hybrid_encrypt.py:53-80 | succeeds exactly when every step succeeds |
| HybridEncrypt.DecryptedIsAuthenticAndFresh | crypto/hybrid_encrypt.py:53-73 | plaintext comes only from a message with a valid session key, a verifying signature and a fresh timestamp |
| HybridEncrypt.ExpiredIsAuthentic | crypto/hybrid_encrypt.py:60-71 | "Message expired" is reported only for an authentic message that is past its TTL |
| HybridEncrypt.FirstFailureReported | crypto/hybrid_encrypt.py:53-70 | the error reported is that of the first failing step, in source order |
| HybridEncrypt.SignatureCheckedFirst | crypto/hybrid_encrypt.py:60-73 | a bad signature is reported whatever the clock, the cipher and the ciphertext fields |
| HybridEncrypt.ExpiredBeforeAead | crypto/hybrid_encrypt.py:66-78 | an authentic, stale message is rejected as expired whatever the cipher and the ciphertext fields |
| HybridEncrypt.ClockOnlyDecidesExpiry | crypto/hybrid_encrypt.py:66-71 | at any two clock readings where the message is not stale, the result is the same and never expiry |
| HybridEncrypt.BoundaryAccepted | crypto/hybrid_encrypt.py:70 | a message exactly `ttl` seconds old is not rejected as expired |
| HybridEncrypt.SharedKeyAgrees | crypto/hybrid_encrypt.py:32-55 | given DH symmetry, both sides derive the same AES key |
| HybridEncrypt.PayloadOpens | crypto/hybrid_encrypt.py:73-80 | a payload framed from the sealed content opens to the content |
| HybridEncrypt.DecryptAccepts | crypto/hybrid_encrypt.py:49-80 | once all checks pass, the result is the opened payload |
| HybridEncrypt.DecryptEncrypt | crypto/hybrid_encrypt.py:23-80 | round trip: with matching keys, decrypting at any time up to `ttl` after encryption gives the content back |
| HybridEncrypt.ToWire | crypto/hybrid_encrypt.py:39-46 | the uploaded object has the five top-level keys and the metadata unchanged |
| HybridEncrypt.RelayReadsEnvelope | server/main.py:34-37 | from a fresh envelope the relay reads the metadata nonce, the sender id when it is not empty, and the content type lowercased |
| ReplayProtection.WindowOf | server/replay_protection.py:9-11 | a sender never seen has an empty window |
| ReplayProtection.Retain | server/replay_protection.py:9-11 | reference definition: the last 100 elements |
| ReplayProtection.BoundedAppend | server/replay_protection.py:9-11 | `append` on a deque of maxlen 100 keeps the last 100; on a full window it drops exactly the oldest |
| ReplayProtection.Record | server/replay_protection.py:25-27 | the nonce is in the window afterwards; the window is unchanged if the nonce was there, else it is the bounded append; the bound is kept |
| ReplayProtection.RecordContents | server/replay_protection.py:26-27 | recording adds nothing but the nonce and never a duplicate |
| ReplayProtection.RecordKeepsValid | server/replay_protection.py:25-27 | every window stays at most 100 long and duplicate-free |
| ReplayProtection.RetainTwice | server/replay_protection.py:9-11 | keeping the last 100, appending, then keeping the last 100 again is keeping the last 100 of everything |
| ReplayProtection.RecordAllFresh | server/replay_protection.py:21-27 | recording distinct new nonces one after another leaves the last 100 of the old window followed by them |
| ReplayProtection.RetainKeepsOnlySuffix | server/replay_protection.py:9-11 | after at least 100 appended elements, only those appended remain |
| ReplayProtection.OldNonceForgotten | server/replay_protection.py:6-18 | after 100 newer distinct nonces from the sender, an old nonce is no longer in the window |
| ReplayProtection.ReplayGuard.IsReplay | server/replay_protection.py:14-18 | true exactly when the nonce is in the window; it creates an empty window for a new sender and changes no window's contents |
| ReplayProtection.ReplayGuard.StoreNonce | server/replay_protection.py:21-27 | the sender's window becomes the recorded one, every other sender's is unchanged, and the invariant is kept |
| Database.RidsMember | server/database.py:37-40 | a name is among the items exactly when some item carries it |
| Database.RidsCount | server/database.py:37-40 | items with distinct names name as many recipients as there are items |
| Database.Store.SaveBundle | server/database.py:9-13 | the recipient's slot holds the bundle stamped with the clock, replacing any earlier one; other slots unchanged |
| Database.Store.GetBundleWithTimestamp | server/database.py:16-22 | the recipient's entry when there is one, else nothing; the store is not changed |
| Database.Store.DeleteBundle | server/database.py:25-29 | the recipient's slot is removed, a no-op when empty; other slots unchanged |
| Database.Store.GetAllItems | server/database.py:32-40 | one triple per stored recipient, each matching the store, no recipient twice |
| TtlManager.ExtractContentType | server/ttl_manager.py:14-27 | the metadata content type when truthy, else the top-level one when truthy, else `text`, rendered with `str` and lowercased |
| TtlManager.StorageTtl | server/ttl_manager.py:6-35 | 5 minutes for `password`, 2 hours for `file`, 30 minutes for everything else |
| TtlManager.NumericContentTypeIsText | server/ttl_manager.py:27-35 | a numeric content type gets the text TTL |
| TtlManager.IsExpired | server/ttl_manager.py:30-36 | expired only strictly after storage: more than five minutes for a password, two hours for a file, thirty minutes for any other extracted content type |
| TtlManager.ExpiryMonotone | server/ttl_manager.py:36 | once expired, expired at every later time; an entry exactly at its deadline is not expired |
| TtlManager.ExpiredKeys | server/ttl_manager.py:53-54 | exactly the stored recipients whose entries are expired |
| TtlManager.Sweep | server/ttl_manager.py:51-57 | keeps exactly the entries that are not expired, unchanged |
| TtlManager.SweepCount | server/ttl_manager.py:51-57 | kept plus removed is the whole store; a second sweep at the same time removes nothing |
| TtlManager.SweepIsDifference | server/ttl_manager.py:53-56 | the sweep is the store minus the expired recipients |
| TtlManager.SweepDone | server/ttl_manager.py:51-57 | after the last item of the snapshot, the store is the sweep and the count is the number of expired entries |
| TtlManager.CleanupExpired | server/ttl_manager.py:44-57 | the store becomes its sweep, and the count returned is the number of expired entries, at most the initial size |
| Relay.StatusCode | server/main.py:62-99 | 200 exactly for success |
| Relay.ExtractSenderAndNonce | server/main.py:24-37 | for each of `sender_id` and `nonce`: a truthy metadata entry wins, else a truthy top-level entry, else nothing; whatever is found is truthy |
| Relay.UploadStep | server/main.py:48-75 | bad request exactly when sender or nonce is missing; conflict exactly when the nonce is in the sender's window; only success changes state, recording the nonce and storing the bundle over any pending one |
| Relay.UploadKeepsValid | server/main.py:61-75 | every upload keeps the windows bounded and duplicate-free |
| Relay.FetchStep | server/main.py:78-99 | not found exactly for an empty slot; gone exactly for an expired entry; otherwise the bundle; the slot is emptied in every case |
| Relay.CleanupStep | server/main.py:102-110 | the store becomes its sweep, the windows are untouched, and the count is what was removed |
| Relay.RelayServer.constructor | server/main.py:12 | empty windows and an empty store |
| Relay.RelayServer.Upload | server/main.py:48-75 | the new state and the response are those of `UploadStep` |
| Relay.RelayServer.Fetch | server/main.py:78-99 | the new state and the response are those of `FetchStep` |
| Relay.RelayServer.Cleanup | server/main.py:102-110 | the new state and the count are those of `CleanupStep` |
| Relay.RelayServer.Health | server/main.py:40-45 | always `ok` |
| Relay.ReplayRejected | server/main.py:69-75 | the same sender and nonce a second time is a conflict and changes nothing |
| Relay.FreshNonceAccepted | server/main.py:69-75 | after a stored upload, a new nonce from the same sender is accepted |
| Relay.DeliveredOnce | server/main.py:87-99 | a stored bundle is returned on the first fetch, and the next fetch finds nothing |
| Relay.LastWriteWins | server/main.py:72-99 | of two accepted uploads to one recipient, fetch returns the second |
| Relay.PasswordExpires | server/main.py:87-95 | a password bundle fetched more than five minutes after upload is gone and its slot is empty |
| Clipboard.Classify | client/clipboard.py:12-20 | one of `url`, `password`, `text`; `url` exactly for the URL prefix; `password` exactly when not a URL, at least 8 long, with a digit, a letter and a non-alphanumeric character |
| Clipboard.DetectContentType | client/clipboard.py:9-20 | the same three outcomes, decided on the stripped text |
| Clipboard.AnyInExists | client/clipboard.py:17 | the `any(...)` scan is true exactly when some character is of the class |
| Clipboard.FoldMatches | client/clipboard.py:6 | under `re.IGNORECASE` a pattern letter matches exactly the characters that fold to it |
| Clipboard.FoldPunctuation | client/clipboard.py:6 | `:` and `/` match only themselves |
| Clipboard.UrlFolds | client/clipboard.py:6 | a match means that the folded text starts with `http://` or `https://` |
| Clipboard.PlainSchemeIsUrl | client/clipboard.py:6 | folded text starting with `http://` matches |
| Clipboard.SecureSchemeIsUrl | client/clipboard.py:6 | folded text starting with `https://` matches |
| Clipboard.UrlIsFoldedPrefix | client/clipboard.py:6 | the pattern matches exactly when the case-folded text starts with `http://` or `https://` |
| Clipboard.ClassifyIgnoresPadding | client/clipboard.py:10 | whitespace around the text does not change the classification |
| Clipboard.ClassifyStripped | client/clipboard.py:10 | classifying stripped text gives the same answer |
| History.EncryptJson | client/history.py:27-33 | the blob is the 12-byte nonce followed by the sealed plaintext |
| History.DecryptJson | client/history.py:36-42 | opens the bytes after the first 12 with the first 12 as nonce; a blob of 8 to 11 bytes is all nonce and no ciphertext; a shorter one fails on its nonce length |
| History.FramingRoundTrip | client/history.py:30-41 | decryption sees exactly the nonce and the sealed text the blob was made of, so a correct cipher gives the plaintext back |
| History.LoadHistory | client/history.py:45-51 | no file gives the empty list; a blob that does not open raises |
| History.Cap | client/history.py:61 | Python's `s[:50]`: the first 50, or all of a shorter list |
| History.AddEntry | client/history.py:60-61 | the new entry first, then the previous list cut to its first 49, order kept; at most 50 long |
| History.SaveStep | client/history.py:54-65 | declined exactly for content type `password` in any ASCII case, with the file unchanged; raises with the file unchanged when the history cannot be loaded; otherwise the file is the encrypted updated list |
| History.LoadAfterSave | client/history.py:45-65 | after a save, loading gives the previous list with the new entry in front, at most 50 long |
| History.CapAppend | client/history.py:61 | cutting the tail to 50 before prepending does not change the first 50 |
| History.AddAllKeepsNewest | client/history.py:54-61 | after a series of saves, the history is the saved entries newest first followed by the earlier ones, cut to 50 |
| History.HistoryStore.SaveToHistory | client/history.py:54-65 | the new file contents and the outcome are those of `SaveStep` |

## Left out

- Text.IsDigit, Text.IsAlpha and Text.IsAlnum accept ASCII characters only. Python's `isdigit`, `isalpha` and `isalnum` also accept other Unicode digits and letters. As a result, `Clipboard.Classify` counts a non-ASCII letter as a symbol.
- Text.Lower maps ASCII capitals only. Python's `str.lower` maps all of Unicode. The only comparisons made with its result are against the ASCII keys `password`, `text`, `url` and `file`. No lowercase mapping of a non-ASCII character equals one of those keys, so the outcome is the same; this is not proved. A single character can lower to more than one (`'İ'.lower()` is `i` followed by U+0307), and the model does not capture that.
- Base64.Decode follows the non-strict `binascii.a2b_base64` of CPython 3.11 and later, which `b64decode` uses. It skips characters outside the alphabet and a `=` that cannot be padding, and stops at the first padding that completes a group. Its one error is a group left incomplete at the end of the text. Earlier CPython versions differ in some stray-padding cases, and those versions are not modelled.
- JSON values are strings and integers only. Timestamps are integer seconds, while `time.time()` and `datetime.utcnow()` give fractions of a second.
- TtlManager.CleanupExpired reads the clock once per call. The source reads it again for each item (server/ttl_manager.py:36).
- Concurrent requests are not modelled. Calls are sequential, and the source has no locking.
- Database.Store.GetAllItems lists the entries in an unspecified order. Its contract does not depend on the order, and dict iteration order is not modelled.
- The HTTP routing, the pydantic response models of server/schemas.py and the status-code plumbing are left out. `Relay.Response` and `Relay.StatusCode` stand for them.
- A missing key in an envelope (`KeyError` on `bundle["ciphertext"]` and the like) is not modelled, because `HybridEncrypt.Envelope` always holds every field. A missing or non-numeric `timestamp` or `ttl` is modelled, as `MalformedMetadata`.
- The X25519 exchange of `HybridEncrypt.Primitives` is total. The library's rejection of an all-zero shared secret is not modelled.
- The internals of X25519, HKDF-SHA256, Ed25519, AES-GCM, `json.dumps` and UTF-8 are abstract. Only the facts named above are assumed about them.
- The test script passes key objects where the model passes raw public keys (tests/test_crypto.py:12-25).
- History.DecryptJson reports both failures of `AESGCM.decrypt` as None: the `ValueError` for a nonce under eight bytes, and `InvalidTag`. `load_history` lets both propagate.
- AesGcm.Open does not model the `ValueError` that `AESGCM(key)` raises for a key that is not 16, 24 or 32 bytes. `HybridEncrypt.DeriveAesKey` gives 32 bytes whenever HKDF returns the length asked for, and the history key is a fixed field.
- Schemas.Bundle holds the metadata as a map, so a bundle whose `metadata` is truthy but not an object (for instance the string `"x"`) cannot be written down. The relay's schema accepts it (server/schemas.py:27-28, `extra = "allow"`). `meta.get` then raises `AttributeError` in `_extract_sender_and_nonce` and `_extract_content_type` (server/main.py:34-35, server/ttl_manager.py:25-26), and the handler answers with HTTP 500. A missing or falsy `metadata` is the empty map, as `or {}` makes it.
- The JSON and UTF-8 layer of the history file is abstract. `History.Codec` stands for it (`json.dumps`, `json.loads`, `.get("items", [])`), and only its round trip is assumed. A list that is not made of entries is not modelled.
- The key file is a fixed field of `History.HistoryStore`, and file reads and writes are not modelled. `_get_history_key` reads the key file or generates it (client/history.py:16-24).
- The thread, polling and clipboard access of `ClipboardMonitor` are not part of this model.
- client/ui.py, client/app.py, client/server_api.py, client/pairing.py and crypto/api.py are not part of this model. Between them they hold UI, process start-up, HTTP calls, and key files.
