/**
 * The relay's request handlers: upload, fetch and cleanup over the replay
 * guard and the store.  Each handler gets the clock reading `now` as an
 * argument.  The spec functions (`UploadStep`, `FetchStep`, `CleanupStep`)
 * give each handler's effect on the relay state, and the `RelayServer`
 * methods are proved to have exactly that effect.
 */
module Relay {
  import opened Wrappers
  import opened Json
  import opened Schemas
  import opened ReplayProtection
  import opened Database
  import opened TtlManager

  /** The outcome of a request: a value, or the HTTP error it raises. */
  datatype Response<+T> = Success(value: T) | BadRequest | Conflict | NotFound | Gone

  /** The HTTP status code of each outcome. */
  function StatusCode<T>(r: Response<T>): (code: int)
    ensures r.Success? <==> code == 200
  {
    match r
    case Success(_) => 200
    case BadRequest => 400
    case Conflict => 409
    case NotFound => 404
    case Gone => 410
  }

  /** Everything the relay holds: the replay windows and the store. */
  datatype RelayState = RelayState(windows: Windows, store: Entries)

  /**
   * `_extract_sender_and_nonce`: each of `sender_id` and `nonce` from the
   * metadata first, else from the top level; missing or falsy gives None.
   */
  function ExtractSenderAndNonce(b: Bundle): (r: (Option<Value>, Option<Value>))
    ensures r.0.Some? ==> Truthy(r.0.value)
    ensures Present(Get(b.metadata, "sender_id")) ==> r.0 == Get(b.metadata, "sender_id")
    ensures !Present(Get(b.metadata, "sender_id")) && Present(Get(b.fields, "sender_id")) ==> r.0 == Get(b.fields, "sender_id")
    ensures !Present(Get(b.metadata, "sender_id")) && !Present(Get(b.fields, "sender_id")) ==> r.0.None?
    ensures r.1.Some? ==> Truthy(r.1.value)
    ensures Present(Get(b.metadata, "nonce")) ==> r.1 == Get(b.metadata, "nonce")
    ensures !Present(Get(b.metadata, "nonce")) && Present(Get(b.fields, "nonce")) ==> r.1 == Get(b.fields, "nonce")
    ensures !Present(Get(b.metadata, "nonce")) && !Present(Get(b.fields, "nonce")) ==> r.1.None?
  {
    (Lookup(b, "sender_id"), Lookup(b, "nonce"))
  }

  /** `upload_bundle`: reject before any change, else record the nonce and store the bundle. */
  function UploadStep(st: RelayState, recipient: string, b: Bundle, now: int): (res: (RelayState, Response<string>))
    ensures res.1.BadRequest? <==> Lookup(b, "sender_id").None? || Lookup(b, "nonce").None?
    ensures res.1.Conflict? <==>
              && Lookup(b, "sender_id").Some? && Lookup(b, "nonce").Some?
              && Lookup(b, "nonce").value in WindowOf(st.windows, Lookup(b, "sender_id").value)
    ensures res.1.BadRequest? || res.1.Conflict? || res.1 == Success(recipient)
    ensures !res.1.Success? ==> res.0 == st
    ensures res.1.Success? ==>
              var sender, nonce := Lookup(b, "sender_id").value, Lookup(b, "nonce").value;
              && nonce !in WindowOf(st.windows, sender)
              && res.0.windows == st.windows[sender := Record(WindowOf(st.windows, sender), nonce)]
              && res.0.store == st.store[recipient := Stored(b, now)]
  {
    var (sender, nonce) := ExtractSenderAndNonce(b);
    if sender.None? || nonce.None? then (st, BadRequest)
    else if nonce.value in WindowOf(st.windows, sender.value) then (st, Conflict)
    else
      (RelayState(st.windows[sender.value := Record(WindowOf(st.windows, sender.value), nonce.value)],
                  st.store[recipient := Stored(b, now)]),
       Success(recipient))
  }

  /** An upload, accepted or not, keeps every window bounded and duplicate-free. */
  lemma UploadKeepsValid(st: RelayState, recipient: string, b: Bundle, now: int)
    requires ValidWindows(st.windows)
    ensures ValidWindows(UploadStep(st, recipient, b, now).0.windows)
  {
    if UploadStep(st, recipient, b, now).1.Success? {
      RecordKeepsValid(st.windows, Lookup(b, "sender_id").value, Lookup(b, "nonce").value);
    }
  }

  /** `fetch_bundle`: one-time delivery; an expired entry is evicted and reported gone. */
  function FetchStep(st: RelayState, recipient: string, now: int): (res: (RelayState, Response<Bundle>))
    ensures res.1.NotFound? <==> recipient !in st.store
    ensures res.1.Gone? <==> recipient in st.store && Expired(st.store[recipient], now)
    ensures res.1.Success? <==> recipient in st.store && !Expired(st.store[recipient], now)
    ensures res.1.Success? ==> res.1.value == st.store[recipient].bundle
    ensures res.1.NotFound? ==> res.0 == st
    ensures res.0 == st.(store := st.store - {recipient})
    ensures recipient !in res.0.store
  {
    if recipient !in st.store then (st, NotFound)
    else
      var stored := st.store[recipient];
      var st' := st.(store := st.store - {recipient});
      if Expired(stored, now) then (st', Gone) else (st', Success(stored.bundle))
  }

  /** `manual_cleanup`: the sweep, and how many entries it removed. */
  function CleanupStep(st: RelayState, now: int): (res: (RelayState, nat))
    ensures res.0.windows == st.windows
    ensures res.0.store == Sweep(st.store, now)
    ensures res.1 == |st.store| - |res.0.store| <= |st.store|
  {
    SweepCount(st.store, now);
    (st.(store := Sweep(st.store, now)), |ExpiredKeys(st.store, now)|)
  }

  /** The relay process: the module-level replay guard and store. */
  class RelayServer {
    const guard: ReplayGuard
    const db: Store

    ghost predicate Valid()
      reads this, guard
    {
      guard.Valid()
    }

    function State(): RelayState
      reads this, guard, db
    {
      RelayState(guard.windows, db.entries)
    }

    constructor ()
      ensures Valid() && fresh(guard) && fresh(db)
      ensures State() == RelayState(map[], map[])
    {
      guard := new ReplayGuard();
      db := new Store();
    }

    method Upload(recipient: string, bundle: Bundle, now: int) returns (r: Response<string>)
      requires Valid()
      modifies guard, db
      ensures Valid()
      ensures (State(), r) == UploadStep(old(State()), recipient, bundle, now)
    {
      ghost var st0 := State();
      var (sender, nonce) := ExtractSenderAndNonce(bundle);
      if sender.None? || nonce.None? {
        return BadRequest;
      }
      var replay := guard.IsReplay(sender.value, nonce.value);
      if replay {
        return Conflict;
      }
      guard.StoreNonce(sender.value, nonce.value);
      SetOverDefault(st0.windows, sender.value, Record(WindowOf(st0.windows, sender.value), nonce.value));
      db.SaveBundle(recipient, bundle, now);
      r := Success(recipient);
    }

    method Fetch(recipient: string, now: int) returns (r: Response<Bundle>)
      requires Valid()
      modifies db
      ensures Valid()
      ensures (State(), r) == FetchStep(old(State()), recipient, now)
    {
      var stored := db.GetBundleWithTimestamp(recipient);
      if stored.None? {
        return NotFound;
      }
      if IsExpired(stored.value.bundle, stored.value.storedAt, now) {
        db.DeleteBundle(recipient);
        return Gone;
      }
      db.DeleteBundle(recipient);
      return Success(stored.value.bundle);
    }

    method Cleanup(now: int) returns (removed: nat)
      requires Valid()
      modifies db
      ensures Valid()
      ensures (State(), removed) == CleanupStep(old(State()), now)
    {
      removed := CleanupExpired(db, now);
    }

    /** `health`: a liveness probe that reads no state. */
    method Health() returns (status: string)
      ensures status == "ok"
    {
      status := "ok";
    }
  }

  /** Same sender and nonce twice: the first is stored, the second is a replay. */
  lemma ReplayRejected(st: RelayState, r1: string, b1: Bundle, t1: int, r2: string, b2: Bundle, t2: int)
    requires ExtractSenderAndNonce(b1) == ExtractSenderAndNonce(b2)
    requires UploadStep(st, r1, b1, t1).1.Success?
    ensures UploadStep(UploadStep(st, r1, b1, t1).0, r2, b2, t2) == (UploadStep(st, r1, b1, t1).0, Conflict)
  {
  }

  /** After a stored upload, a fresh nonce from the same sender is accepted. */
  lemma FreshNonceAccepted(st: RelayState, r1: string, b1: Bundle, t1: int, r2: string, b2: Bundle, t2: int)
    requires UploadStep(st, r1, b1, t1).1.Success?
    requires Lookup(b2, "sender_id") == Lookup(b1, "sender_id")
    requires Lookup(b2, "nonce").Some? && Lookup(b2, "nonce") != Lookup(b1, "nonce")
    requires Lookup(b2, "nonce").value !in WindowOf(st.windows, Lookup(b1, "sender_id").value)
    ensures UploadStep(UploadStep(st, r1, b1, t1).0, r2, b2, t2).1 == Success(r2)
  {
    RecordContents(WindowOf(st.windows, Lookup(b1, "sender_id").value), Lookup(b1, "nonce").value);
  }

  /** One-time delivery: a stored bundle is returned once, then the slot is empty. */
  lemma DeliveredOnce(st: RelayState, recipient: string, b: Bundle, t: int, now: int, later: int)
    requires UploadStep(st, recipient, b, t).1.Success?
    requires !IsExpired(b, t, now)
    ensures var st1 := UploadStep(st, recipient, b, t).0;
            var (st2, first) := FetchStep(st1, recipient, now);
            first == Success(b) && FetchStep(st2, recipient, later) == (st2, NotFound)
  {
  }

  /** Last write wins: of two accepted uploads for one recipient, fetch returns the second. */
  lemma LastWriteWins(st: RelayState, recipient: string, b1: Bundle, t1: int, b2: Bundle, t2: int, now: int)
    requires UploadStep(st, recipient, b1, t1).1.Success?
    requires UploadStep(UploadStep(st, recipient, b1, t1).0, recipient, b2, t2).1.Success?
    requires !IsExpired(b2, t2, now)
    ensures var st2 := UploadStep(UploadStep(st, recipient, b1, t1).0, recipient, b2, t2).0;
            FetchStep(st2, recipient, now).1 == Success(b2)
  {
  }

  /**
   * A bundle classified as a password waits at most five minutes: fetched any
   * later it is gone, and the slot is empty afterwards.
   */
  lemma PasswordExpires(st: RelayState, recipient: string, b: Bundle, t: int, now: int)
    requires UploadStep(st, recipient, b, t).1.Success?
    requires ExtractContentType(b) == "password" && now > t + 5 * 60
    ensures var (st2, r) := FetchStep(UploadStep(st, recipient, b, t).0, recipient, now);
            r == Gone && recipient !in st2.store
  {
  }
}
