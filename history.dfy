/**
 * The client's local clipboard history: a list of `{type, content}` entries,
 * newest first and at most fifty long, kept in one file encrypted with
 * AES-GCM under a local key.  The file holds the 12-byte nonce followed by
 * the sealed JSON text.  Passwords are never written to it.
 */
module History {
  import opened Wrappers
  import opened Bytes
  import opened Text
  import opened AesGcm

  /** One history entry, `{"type": kind, "content": content}`. */
  datatype Entry = Entry(kind: string, content: string)

  /** How many entries the history keeps. */
  const MaxEntries: nat := 50

  /**
   * The JSON layer, left abstract: `dump(items)` stands for
   * `json.dumps({"items": items}, ensure_ascii=False).encode("utf-8")`, and
   * `load(pt)` for `json.loads(pt.decode("utf-8")).get("items", [])`, None
   * where decoding or parsing raises.
   */
  datatype Codec = Codec(dump: seq<Entry> -> Bytes, load: Bytes -> Option<seq<Entry>>)

  /** Parsing the JSON text of a list gives the list back. */
  ghost predicate RoundTrips(c: Codec)
  {
    forall items :: c.load(c.dump(items)) == Some(items)
  }

  /** The cipher, the JSON layer and `_get_history_key()`: the contents of the key file. */
  datatype Vault = Vault(aead: Aead, codec: Codec, key: Bytes)

  ghost predicate Sound(v: Vault)
  {
    Correct(v.aead) && RoundTrips(v.codec)
  }

  /** `_encrypt_json` after the JSON text is made; `nonce` stands for `os.urandom(12)`. */
  function EncryptJson(v: Vault, nonce: Bytes, plaintext: Bytes): (blob: Bytes)
    requires |nonce| == NonceBytes
    ensures |blob| >= NonceBytes
    ensures blob[..NonceBytes] == nonce
    ensures blob[NonceBytes..] == v.aead.seal(v.key, nonce, plaintext)
  {
    nonce + v.aead.seal(v.key, nonce, plaintext)
  }

  /**
   * `_decrypt_json` before the JSON text is parsed: Python's `blob[:12]` and
   * `blob[12:]`, which give the whole blob and nothing when it is shorter,
   * then `AESGCM.decrypt`.  Its `ValueError` for a nonce under eight bytes and
   * its `InvalidTag` both make the call raise, which is None here.
   */
  function DecryptJson(v: Vault, blob: Bytes): (r: Option<Bytes>)
    ensures |blob| < MinNonceBytes ==> r.None?
    ensures MinNonceBytes <= |blob| < NonceBytes ==> r == v.aead.open(v.key, blob, [])
    ensures |blob| >= NonceBytes ==> r == v.aead.open(v.key, blob[..NonceBytes], blob[NonceBytes..])
  {
    var n := if |blob| >= NonceBytes then NonceBytes else |blob|;
    assert n == |blob| ==> blob[..n] == blob && blob[n..] == [];
    match Open(v.aead, v.key, blob[..n], blob[n..])
    case Ok(pt) => Some(pt)
    case Err(_) => None
  }

  /** The framing splits where it joined: decryption sees the nonce and the sealed text unchanged. */
  lemma FramingRoundTrip(v: Vault, nonce: Bytes, plaintext: Bytes)
    requires |nonce| == NonceBytes
    ensures DecryptJson(v, EncryptJson(v, nonce, plaintext)) == v.aead.open(v.key, nonce, v.aead.seal(v.key, nonce, plaintext))
    ensures Correct(v.aead) ==> DecryptJson(v, EncryptJson(v, nonce, plaintext)) == Some(plaintext)
  {
  }

  /**
   * `load_history` on the file's contents (None when there is no file): the
   * stored list, or None where decrypting or parsing raises.
   */
  function LoadHistory(v: Vault, file: Option<Bytes>): (r: Option<seq<Entry>>)
    ensures file.None? ==> r == Some([])
    ensures file.Some? && DecryptJson(v, file.value).None? ==> r.None?
  {
    if file.None? then Some([])
    else
      match DecryptJson(v, file.value)
      case None => None
      case Some(pt) => v.codec.load(pt)
  }

  /** Python's `s[:50]`. */
  function Cap(s: seq<Entry>): (r: seq<Entry>)
    ensures |r| == if |s| <= MaxEntries then |s| else MaxEntries
    ensures r == s[..|r|]
  {
    if |s| <= MaxEntries then s else s[..MaxEntries]
  }

  /**
   * `items.insert(0, entry)` and `items = items[:50]`: the new entry first,
   * then the previous list cut to its first 49 entries, order kept.
   */
  function AddEntry(items: seq<Entry>, e: Entry): (r: seq<Entry>)
    ensures |r| == if |items| < MaxEntries then |items| + 1 else MaxEntries
    ensures r[0] == e
    ensures r[1..] == items[..|r| - 1]
  {
    var s := [e] + items;
    var r := Cap(s);
    assert r[1..] == s[1..|r|];
    r
  }

  /** Whether `save_to_history` declines the entry: the type is `password` in any ASCII case. */
  predicate IsPasswordType(contentType: string)
  {
    Lower(contentType) == "password"
  }

  datatype Outcome = Saved | SkippedPassword | LoadFailed

  /**
   * `save_to_history` on the history file's contents.  A password is
   * declined before the file is read; a file that cannot be loaded makes the
   * call raise with nothing written; otherwise the file is replaced.
   */
  function SaveStep(v: Vault, file: Option<Bytes>, content: string, contentType: string, nonce: Bytes): (res: (Option<Bytes>, Outcome))
    requires |nonce| == NonceBytes
    ensures res.1 == SkippedPassword <==> IsPasswordType(contentType)
    ensures res.1 == LoadFailed <==> !IsPasswordType(contentType) && LoadHistory(v, file).None?
    ensures res.1 != Saved ==> res.0 == file
    ensures res.1 == Saved ==>
              res.0 == Some(EncryptJson(v, nonce, v.codec.dump(AddEntry(LoadHistory(v, file).value, Entry(contentType, content)))))
  {
    if IsPasswordType(contentType) then (file, SkippedPassword)
    else
      match LoadHistory(v, file)
      case None => (file, LoadFailed)
      case Some(items) =>
        (Some(EncryptJson(v, nonce, v.codec.dump(AddEntry(items, Entry(contentType, content))))), Saved)
  }

  /**
   * After a save, loading the history gives the previous list with the new
   * entry in front, at most fifty entries long.
   */
  lemma LoadAfterSave(v: Vault, file: Option<Bytes>, content: string, contentType: string, nonce: Bytes)
    requires Sound(v) && |nonce| == NonceBytes
    requires SaveStep(v, file, content, contentType, nonce).1 == Saved
    ensures var after := LoadHistory(v, SaveStep(v, file, content, contentType, nonce).0);
            && after == Some(AddEntry(LoadHistory(v, file).value, Entry(contentType, content)))
            && |after.value| <= MaxEntries
  {
    var items := AddEntry(LoadHistory(v, file).value, Entry(contentType, content));
    var pt := v.codec.dump(items);
    FramingRoundTrip(v, nonce, pt);
    assert v.codec.load(pt) == Some(items);
  }

  /** The list after adding the entries `es` one after another. */
  function AddAll(items: seq<Entry>, es: seq<Entry>): seq<Entry>
    decreases |es|
  {
    if es == [] then items else AddAll(AddEntry(items, es[0]), es[1..])
  }

  function Reversed(s: seq<Entry>): (r: seq<Entry>)
    ensures |r| == |s|
  {
    if s == [] then [] else Reversed(s[1..]) + [s[0]]
  }

  /** Cutting the tail first does not change the first fifty. */
  lemma CapAppend(x: seq<Entry>, y: seq<Entry>)
    ensures Cap(x + Cap(y)) == Cap(x + y)
  {
    if |y| > MaxEntries {
      var a, b := x + Cap(y), x + y;
      assert a[..MaxEntries] == b[..MaxEntries];
    }
  }

  lemma ReversedFirst(es: seq<Entry>, items: seq<Entry>)
    requires es != []
    ensures Reversed(es[1..]) + ([es[0]] + items) == Reversed(es) + items
  {
  }

  /**
   * The history is a most-recent-first log: after adding the entries `es` in
   * order, it holds them newest first followed by the previous entries, cut
   * to the first fifty.
   */
  lemma {:induction false} AddAllKeepsNewest(items: seq<Entry>, es: seq<Entry>)
    requires es != []
    ensures AddAll(items, es) == Cap(Reversed(es) + items)
    decreases |es|
  {
    var e, rest := es[0], es[1..];
    var first := AddEntry(items, e);
    assert AddAll(items, es) == AddAll(first, rest);
    assert first == Cap([e] + items);
    ReversedFirst(es, items);
    if rest == [] {
      assert AddAll(first, rest) == first;
      assert Reversed(rest) + ([e] + items) == [e] + items;
    } else {
      AddAllKeepsNewest(first, rest);
      CapAppend(Reversed(rest), [e] + items);
    }
  }

  /**
   * The history file and the key and JSON layer it is read with.  `file` is
   * None while `history.enc` does not exist.
   */
  class HistoryStore {
    const vault: Vault
    var file: Option<Bytes>

    constructor (v: Vault, existing: Option<Bytes>)
      ensures vault == v && file == existing
    {
      vault := v;
      file := existing;
    }

    /** `save_to_history`; `nonce` stands for the bytes of `os.urandom(12)`. */
    method SaveToHistory(content: string, contentType: string, nonce: Bytes) returns (outcome: Outcome)
      requires |nonce| == NonceBytes
      modifies this
      ensures (file, outcome) == SaveStep(vault, old(file), content, contentType, nonce)
    {
      if Lower(contentType) == "password" {
        return SkippedPassword;
      }
      var loaded := LoadHistory(vault, file);
      if loaded.None? {
        return LoadFailed;
      }
      var items := loaded.value;
      items := [Entry(contentType, content)] + items;
      if |items| > MaxEntries {
        items := items[..MaxEntries];
      }
      assert items == AddEntry(loaded.value, Entry(contentType, content));
      file := Some(EncryptJson(vault, nonce, vault.codec.dump(items)));
      outcome := Saved;
    }
  }
}
