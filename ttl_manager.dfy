/**
 * Storage time-to-live on the relay: how long a bundle may wait unclaimed,
 * by content type, and the sweep that discards the bundles past it.
 * Times are integer seconds.
 */
module TtlManager {
  import opened Wrappers
  import opened Json
  import opened Text
  import opened Schemas
  import opened Database

  /** `TTL_MAP`, in seconds. */
  const TtlMap: map<string, int> := map[
    "password" := 5 * 60,
    "text" := 30 * 60,
    "url" := 30 * 60,
    "file" := 2 * 60 * 60
  ]

  /**
   * `_extract_content_type`: `metadata.content_type`, else the top-level
   * `content_type`, else "text" (empty values fall through), rendered with
   * `str` and lowercased.
   */
  function ExtractContentType(b: Bundle): (r: string)
    ensures Present(Get(b.metadata, "content_type")) ==> r == Lower(ToStr(b.metadata["content_type"]))
    ensures !Present(Get(b.metadata, "content_type")) && Present(Get(b.fields, "content_type")) ==>
              r == Lower(ToStr(b.fields["content_type"]))
    ensures !Present(Get(b.metadata, "content_type")) && !Present(Get(b.fields, "content_type")) ==> r == "text"
  {
    match Lookup(b, "content_type")
    case Some(v) => Lower(ToStr(v))
    case None => "text"
  }

  /** `TTL_MAP.get(ctype, TTL_MAP["text"])`. */
  function StorageTtl(contentType: string): (ttl: int)
    ensures contentType == "password" <==> ttl == 5 * 60
    ensures contentType == "file" <==> ttl == 2 * 60 * 60
    ensures contentType != "password" && contentType != "file" <==> ttl == 30 * 60
  {
    if contentType in TtlMap then TtlMap[contentType] else TtlMap["text"]
  }

  /** A content type that is not a string never matches a key of the table. */
  lemma NumericContentTypeIsText(n: int)
    ensures StorageTtl(Lower(ToStr(Num(n)))) == 30 * 60
  {
    var s := ToStr(Num(n));
    assert s[0] == '-' || '0' <= s[0] <= '9';
    assert Lower(s)[0] == s[0];
  }

  /**
   * `is_expired`: strictly past `stored_at + ttl`, so five minutes for a
   * password, two hours for a file and thirty minutes for anything else.
   */
  function IsExpired(b: Bundle, storedAt: int, now: int): (r: bool)
    ensures r ==> now > storedAt
    ensures ExtractContentType(b) == "password" ==> (r <==> now - storedAt > 5 * 60)
    ensures ExtractContentType(b) == "file" ==> (r <==> now - storedAt > 2 * 60 * 60)
    ensures ExtractContentType(b) != "password" && ExtractContentType(b) != "file" ==> (r <==> now - storedAt > 30 * 60)
  {
    now > storedAt + StorageTtl(ExtractContentType(b))
  }

  predicate Expired(s: Stored, now: int) { IsExpired(s.bundle, s.storedAt, now) }

  /** Expiry is monotone in time, and an entry exactly at its deadline is still live. */
  lemma ExpiryMonotone(b: Bundle, storedAt: int, now: int, later: int)
    requires IsExpired(b, storedAt, now) && now <= later
    ensures IsExpired(b, storedAt, later)
    ensures !IsExpired(b, storedAt, storedAt + StorageTtl(ExtractContentType(b)))
  {
  }

  /** The recipients whose entries are expired at `now`. */
  function ExpiredKeys(entries: Entries, now: int): (k: set<string>)
    ensures k <= entries.Keys
    ensures forall r :: r in k <==> r in entries && Expired(entries[r], now)
  {
    set r | r in entries && Expired(entries[r], now)
  }

  /** The store after discarding every expired entry. */
  function Sweep(entries: Entries, now: int): (m: Entries)
    ensures m.Keys == entries.Keys - ExpiredKeys(entries, now)
    ensures forall r :: r in m ==> m[r] == entries[r] && !Expired(m[r], now)
  {
    map r | r in entries && !Expired(entries[r], now) :: entries[r]
  }

  lemma {:induction false} SubsetCard(a: set<string>, b: set<string>)
    requires a <= b
    ensures |b - a| == |b| - |a|
    decreases |a|
  {
    if a != {} {
      var x :| x in a;
      SubsetCard(a - {x}, b - {x});
      assert b - a == (b - {x}) - (a - {x});
    }
  }

  /**
   * A sweep keeps exactly the live entries: kept and removed add up to the
   * whole store, and a second sweep at the same time removes nothing.
   */
  lemma SweepCount(entries: Entries, now: int)
    ensures |Sweep(entries, now)| + |ExpiredKeys(entries, now)| == |entries|
    ensures Sweep(Sweep(entries, now), now) == Sweep(entries, now)
    ensures ExpiredKeys(Sweep(entries, now), now) == {}
  {
    SubsetCard(ExpiredKeys(entries, now), entries.Keys);
    assert |Sweep(entries, now).Keys| == |Sweep(entries, now)|;
  }

  lemma SweepIsDifference(entries: Entries, now: int)
    ensures Sweep(entries, now) == entries - ExpiredKeys(entries, now)
    ensures ExpiredKeys(entries, now) * entries.Keys == ExpiredKeys(entries, now)
  {
  }

  lemma RemoveOneMore(m: Entries, gone: set<string>, r: string)
    ensures (m - gone) - {r} == m - (gone + {r})
  {
  }

  /** The items of a snapshot of `entries`, as `get_all_items` returns them. */
  ghost predicate Snapshot(entries: Entries, items: seq<Item>)
  {
    && Rids(items) == entries.Keys
    && DistinctRids(items)
    && forall i :: 0 <= i < |items| ==>
         items[i].rid in entries && entries[items[i].rid] == Stored(items[i].bundle, items[i].storedAt)
  }

  /**
   * Partway through the sweep over a snapshot: of the names in `dead`,
   * exactly those among the first `i` items are gone, and `removed` counts them.
   */
  ghost predicate Swept(start: Entries, dead: set<string>, items: seq<Item>, i: nat, gone: set<string>, current: Entries, removed: nat)
  {
    i <= |items| && gone == dead * Rids(items[..i]) && current == start - gone && removed == |gone|
  }

  /** The names among the first `i + 1` items: those among the first `i`, and a new one. */
  lemma NextRid(items: seq<Item>, i: nat)
    requires i < |items| && DistinctRids(items)
    ensures Rids(items[..i + 1]) == Rids(items[..i]) + {items[i].rid}
    ensures items[i].rid !in Rids(items[..i])
  {
    assert items[..i + 1][..i] == items[..i];
    RidsMember(items[..i], items[i].rid);
  }

  /** One step of the sweep: item `i` is deleted exactly when it is in `dead`. */
  lemma SweepStep(start: Entries, dead: set<string>, items: seq<Item>, i: nat, gone: set<string>, current: Entries, removed: nat)
    requires i < |items| && Swept(start, dead, items, i, gone, current, removed)
    requires items[i].rid !in Rids(items[..i]) && Rids(items[..i + 1]) == Rids(items[..i]) + {items[i].rid}
    ensures items[i].rid in dead ==>
              Swept(start, dead, items, i + 1, gone + {items[i].rid}, current - {items[i].rid}, removed + 1)
    ensures items[i].rid !in dead ==> Swept(start, dead, items, i + 1, gone, current, removed)
  {
    var rid := items[i].rid;
    if rid in dead {
      assert rid !in gone;
      assert gone + {rid} == dead * Rids(items[..i + 1]);
      RemoveOneMore(start, gone, rid);
    } else {
      assert gone == dead * Rids(items[..i + 1]);
    }
  }

  lemma ExpiredMember(entries: Entries, now: int, r: string, s: Stored)
    requires r in entries && entries[r] == s
    ensures r in ExpiredKeys(entries, now) <==> Expired(s, now)
  {
  }

  /** At the end of the snapshot the store is the sweep of where it started. */
  lemma SweepDone(start: Entries, now: int, items: seq<Item>, gone: set<string>, current: Entries, removed: nat)
    requires Snapshot(start, items) && Swept(start, ExpiredKeys(start, now), items, |items|, gone, current, removed)
    ensures current == Sweep(start, now)
    ensures removed == |ExpiredKeys(start, now)| <= |start|
  {
    assert items[..|items|] == items;
    SweepIsDifference(start, now);
    SubsetCard(ExpiredKeys(start, now), start.Keys);
  }

  /**
   * `cleanup_expired`: walks a snapshot of the store, deletes each expired
   * entry and counts the deletions.  The clock is read once, as `now`.
   */
  method CleanupExpired(db: Store, now: int) returns (removed: nat)
    modifies db
    ensures db.entries == Sweep(old(db.entries), now)
    ensures removed == |ExpiredKeys(old(db.entries), now)|
    ensures removed <= |old(db.entries)|
  {
    ghost var start := db.entries;
    ghost var dead := ExpiredKeys(start, now);
    removed := 0;
    var items := db.GetAllItems();
    assert Snapshot(start, items);
    ghost var gone: set<string> := {};
    assert start - gone == start;
    for i := 0 to |items|
      invariant Swept(start, dead, items, i, gone, db.entries, removed)
    {
      var item := items[i];
      ExpiredMember(start, now, item.rid, Stored(item.bundle, item.storedAt));
      NextRid(items, i);
      SweepStep(start, dead, items, i, gone, db.entries, removed);
      if IsExpired(item.bundle, item.storedAt, now) {
        db.DeleteBundle(item.rid);
        removed := removed + 1;
        gone := gone + {item.rid};
      }
    }
    SweepDone(start, now, items, gone, db.entries, removed);
  }
}
