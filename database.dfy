/**
 * The relay's in-memory store: one pending bundle per recipient, stamped
 * with the time it was saved.
 */
module Database {
  import opened Wrappers
  import opened Schemas

  /** `(bundle, stored_at)`, the value kept for a recipient. */
  datatype Stored = Stored(bundle: Bundle, storedAt: int)

  /** `(rid, bundle, ts)`, one triple of `get_all_items`. */
  datatype Item = Item(rid: string, bundle: Bundle, storedAt: int)

  type Entries = map<string, Stored>

  /** The recipients named by a list of items. */
  function Rids(items: seq<Item>): set<string>
  {
    if items == [] then {} else Rids(items[..|items| - 1]) + {items[|items| - 1].rid}
  }

  predicate DistinctRids(items: seq<Item>)
  {
    forall i, j :: 0 <= i < j < |items| ==> items[i].rid != items[j].rid
  }

  lemma {:induction false} RidsMember(items: seq<Item>, r: string)
    ensures r in Rids(items) <==> exists i :: 0 <= i < |items| && items[i].rid == r
  {
    if items != [] {
      var init := items[..|items| - 1];
      RidsMember(init, r);
      if r in Rids(init) {
        var i :| 0 <= i < |init| && init[i].rid == r;
        assert items[i].rid == r;
      }
      if exists i :: 0 <= i < |items| && items[i].rid == r {
        var i :| 0 <= i < |items| && items[i].rid == r;
        if i < |init| {
          assert init[i].rid == r;
        }
      }
    }
  }

  /** Distinct recipients: as many names as items. */
  lemma {:induction false} RidsCount(items: seq<Item>)
    requires DistinctRids(items)
    ensures |Rids(items)| == |items|
  {
    if items != [] {
      var init := items[..|items| - 1];
      var last := items[|items| - 1].rid;
      assert DistinctRids(init);
      RidsCount(init);
      RidsMember(init, last);
    }
  }

  /** Appending an item with a new recipient keeps the recipients distinct and adds its name. */
  lemma AppendItem(items: seq<Item>, item: Item)
    requires DistinctRids(items) && item.rid !in Rids(items)
    ensures DistinctRids(items + [item])
    ensures Rids(items + [item]) == Rids(items) + {item.rid}
  {
    var s := items + [item];
    assert s[..|items|] == items;
    forall i | 0 <= i < |items|
      ensures items[i].rid != item.rid
    {
      RidsMember(items, items[i].rid);
    }
    assert forall i, j :: 0 <= i < j < |items| ==> s[i] == items[i] && s[j] == items[j];
  }

  /** Every item agrees with the store. */
  ghost predicate Agree(entries: Entries, items: seq<Item>)
  {
    forall i :: 0 <= i < |items| ==>
      items[i].rid in entries && entries[items[i].rid] == Stored(items[i].bundle, items[i].storedAt)
  }

  /** Partway through `get_all_items`: `items` lists the store's entries outside `rest`, once each. */
  ghost predicate Collected(entries: Entries, rest: set<string>, items: seq<Item>)
  {
    rest + Rids(items) == entries.Keys && rest !! Rids(items) && DistinctRids(items) && Agree(entries, items)
  }

  lemma CollectOne(entries: Entries, rest: set<string>, items: seq<Item>, r: string)
    requires Collected(entries, rest, items) && r in rest
    ensures r in entries
    ensures Collected(entries, rest - {r}, items + [Item(r, entries[r].bundle, entries[r].storedAt)])
  {
    var item := Item(r, entries[r].bundle, entries[r].storedAt);
    AppendItem(items, item);
    assert forall i :: 0 <= i < |items| ==> (items + [item])[i] == items[i];
  }

  /** The module-level `_store` dictionary. */
  class Store {
    var entries: Entries

    constructor ()
      ensures entries == map[]
    {
      entries := map[];
    }

    /** `save_bundle`: stores the bundle stamped `now`, replacing any earlier one. */
    method SaveBundle(recipient: string, bundle: Bundle, now: int)
      modifies this
      ensures entries == old(entries)[recipient := Stored(bundle, now)]
    {
      entries := entries[recipient := Stored(bundle, now)];
    }

    /** `get_bundle_with_timestamp`: the recipient's entry, if any. */
    method GetBundleWithTimestamp(recipient: string) returns (r: Option<Stored>)
      ensures r.Some? <==> recipient in entries
      ensures r.Some? ==> r.value == entries[recipient]
    {
      if recipient in entries {
        r := Some(entries[recipient]);
      } else {
        r := None;
      }
    }

    /** `delete_bundle`: removes the recipient's entry; nothing happens if there is none. */
    method DeleteBundle(recipient: string)
      modifies this
      ensures entries == old(entries) - {recipient}
    {
      entries := entries - {recipient};
    }

    /** `get_all_items`: one triple per stored recipient, matching the store. */
    method GetAllItems() returns (items: seq<Item>)
      ensures Rids(items) == entries.Keys
      ensures DistinctRids(items) && |items| == |entries|
      ensures forall i :: 0 <= i < |items| ==>
                items[i].rid in entries && entries[items[i].rid] == Stored(items[i].bundle, items[i].storedAt)
    {
      items := [];
      var rest := entries.Keys;
      while rest != {}
        invariant Collected(entries, rest, items)
        decreases rest
      {
        var r :| r in rest;
        CollectOne(entries, rest, items, r);
        items := items + [Item(r, entries[r].bundle, entries[r].storedAt)];
        rest := rest - {r};
      }
      RidsCount(items);
    }
  }
}
