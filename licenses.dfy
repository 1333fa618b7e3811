/**
  The licence catalog of the picker: the dictionary built from the catalog
  returned by the photo service, the lookup `getLicense`, and the
  comma-separated list of the licence ids whose name is allowed.
*/
module Licenses {
  import opened Wrappers

  /** One catalog entry as the service returns it. */
  datatype License = License(id: string, name: string)

  /**
    A Python dict from licence id to entry: `order` holds the keys in
    insertion order (the order `values()` walks them in), `entries` the
    current value of each key.
  */
  datatype Registry = Registry(order: seq<string>, entries: map<string, License>)

  ghost predicate Distinct<T>(xs: seq<T>) {
    forall i, j :: 0 <= i < j < |xs| ==> xs[i] != xs[j]
  }

  /** The dict invariant: every key once, in both views, and stored under its own id. */
  ghost predicate Valid(r: Registry) {
    && Distinct(r.order)
    && (forall k :: k in r.order <==> k in r.entries)
    && (forall k :: k in r.entries ==> r.entries[k].id == k)
  }

  /** `d[l.id] = l`: a new key goes to the end, an existing key keeps its place and takes the new value. */
  function Insert(r: Registry, l: License): Registry {
    if l.id in r.entries then Registry(r.order, r.entries[l.id := l])
    else Registry(r.order + [l.id], r.entries[l.id := l])
  }

  /** The dict comprehension `{license["id"]: license for license in catalog}`. */
  function BuildRegistry(catalog: seq<License>): (r: Registry)
    ensures Valid(r)
    ensures forall k :: k in r.entries <==> exists i :: 0 <= i < |catalog| && catalog[i].id == k
    decreases |catalog|
  {
    if catalog == [] then Registry([], map[])
    else
      var prev := BuildRegistry(catalog[..|catalog| - 1]);
      var l := catalog[|catalog| - 1];
      assert forall i :: 0 <= i < |catalog| - 1 ==> catalog[..|catalog| - 1][i] == catalog[i];
      InsertKeepsValid(prev, l);
      Insert(prev, l)
  }

  lemma InsertKeepsValid(r: Registry, l: License)
    requires Valid(r)
    ensures Valid(Insert(r, l))
    ensures Insert(r, l).entries.Keys == r.entries.Keys + {l.id}
  {
    if l.id !in r.entries {
      var o := r.order + [l.id];
      assert forall i :: 0 <= i < |r.order| ==> o[i] == r.order[i];
    }
  }

  /** `getLicense(id)`: the dict's `get`, None for an id the catalog does not hold. */
  function GetLicense(r: Registry, id: string): (found: Option<License>)
    requires Valid(r)
    ensures found.Some? <==> id in r.order
    ensures found.Some? ==> found.value.id == id
  {
    if id in r.entries then Some(r.entries[id]) else None
  }

  /**
    The ids of the entries, walked in dict order, whose name is one of
    `targets` (the list inside the `join` of `__init__`).
  */
  function MatchingIds(order: seq<string>, entries: map<string, License>, targets: seq<string>): seq<string>
    requires forall k :: k in order ==> k in entries
    decreases |order|
  {
    if order == [] then []
    else
      var rest := MatchingIds(order[..|order| - 1], entries, targets);
      var l := entries[order[|order| - 1]];
      if l.name in targets then rest + [l.id] else rest
  }

  /** Catalog-order reference: the ids of the catalog entries whose name is allowed. */
  function CatalogMatches(catalog: seq<License>, targets: seq<string>): seq<string>
    decreases |catalog|
  {
    if catalog == [] then []
    else
      var rest := CatalogMatches(catalog[..|catalog| - 1], targets);
      var l := catalog[|catalog| - 1];
      if l.name in targets then rest + [l.id] else rest
  }

  /** Python's `",".join(parts)`. */
  function Join(parts: seq<string>): string
    decreases |parts|
  {
    if |parts| == 0 then ""
    else if |parts| == 1 then parts[0]
    else parts[0] + "," + Join(parts[1..])
  }

  /** Index of the first occurrence of `c` in `s`. */
  function FirstIndex(s: string, c: char): (i: nat)
    requires c in s
    ensures i < |s| && s[i] == c && c !in s[..i]
  {
    if s[0] == c then 0
    else
      var k := FirstIndex(s[1..], c);
      assert s[1..][..k] == s[1..k + 1];
      assert s[..k + 1] == [s[0]] + s[1..k + 1];
      1 + k
  }

  /** Python's `s.split(",")`, the way the receiving side reads the id list back. */
  function Split(s: string): (parts: seq<string>)
    ensures |parts| > 0
    decreases |s|
  {
    if ',' !in s then [s]
    else
      var i := FirstIndex(s, ',');
      [s[..i]] + Split(s[i + 1..])
  }

  /** `target_license_ids`: the allowed ids joined with ",". */
  function AllowedIds(r: Registry, targets: seq<string>): string
    requires Valid(r)
  {
    Join(MatchingIds(r.order, r.entries, targets))
  }

  // ---------------------------------------------------------------------
  // getLicense over a built catalog

  /** Reference reading of the comprehension: the last catalog entry with this id, if any. */
  function LastEntry(catalog: seq<License>, id: string): (e: Option<License>)
    ensures e.Some? ==> e.value in catalog && e.value.id == id
    ensures e.None? <==> forall i :: 0 <= i < |catalog| ==> catalog[i].id != id
    decreases |catalog|
  {
    if catalog == [] then None
    else if catalog[|catalog| - 1].id == id then Some(catalog[|catalog| - 1])
    else
      var p := catalog[..|catalog| - 1];
      var prev := LastEntry(p, id);
      assert prev.Some? ==> prev.value in p;
      assert forall i :: 0 <= i < |p| ==> p[i] == catalog[i];
      prev
  }

  /** The entry `LastEntry` finds has no later entry with the same id. */
  lemma {:induction false} LastEntryIsLast(catalog: seq<License>, id: string)
    ensures var e := LastEntry(catalog, id);
            e.Some? ==> exists i :: 0 <= i < |catalog| && catalog[i] == e.value
                                    && forall j :: i < j < |catalog| ==> catalog[j].id != id
    decreases |catalog|
  {
    if catalog != [] {
      var n := |catalog| - 1;
      if catalog[n].id == id {
        assert catalog[n] == LastEntry(catalog, id).value;
      } else {
        var p := catalog[..n];
        LastEntryIsLast(p, id);
        var e := LastEntry(p, id);
        assert LastEntry(catalog, id) == e;
        if e.Some? {
          var i :| 0 <= i < |p| && p[i] == e.value && forall j :: i < j < |p| ==> p[j].id != id;
          assert catalog[i] == e.value;
          assert forall j :: i < j < |catalog| ==> catalog[j].id != id by {
            assert forall j :: i < j < n ==> catalog[j] == p[j];
          }
        }
      }
    }
  }

  /**
    `getLicense(id)` on the dict built from `catalog` is None exactly when no
    entry has that id, and otherwise the LAST catalog entry with that id
    (a later duplicate overwrites an earlier one in the comprehension).
  */
  lemma {:induction false} GetLicenseOfCatalog(catalog: seq<License>, id: string)
    ensures GetLicense(BuildRegistry(catalog), id).None? <==>
              forall i :: 0 <= i < |catalog| ==> catalog[i].id != id
    ensures GetLicense(BuildRegistry(catalog), id) == LastEntry(catalog, id)
    decreases |catalog|
  {
    if catalog != [] {
      var p := catalog[..|catalog| - 1];
      var l := catalog[|catalog| - 1];
      GetLicenseOfCatalog(p, id);
      assert forall i :: 0 <= i < |p| ==> p[i] == catalog[i];
      if l.id != id {
        assert GetLicense(BuildRegistry(catalog), id) == GetLicense(BuildRegistry(p), id);
      }
    }
  }

  // ---------------------------------------------------------------------
  // The allowed-id list

  /** Every listed id is a key whose entry has an allowed name, and every such key is listed, once. */
  lemma {:induction false} MatchingIdsMembers(order: seq<string>, entries: map<string, License>, targets: seq<string>)
    requires forall k :: k in order ==> k in entries
    requires forall k :: k in entries ==> entries[k].id == k
    requires Distinct(order)
    ensures forall x :: x in MatchingIds(order, entries, targets) <==> x in order && entries[x].name in targets
    ensures Distinct(MatchingIds(order, entries, targets))
    decreases |order|
  {
    if order != [] {
      var p := order[..|order| - 1];
      var k := order[|order| - 1];
      assert forall x :: x in order <==> x in p || x == k;
      assert k !in p;
      MatchingIdsMembers(p, entries, targets);
    }
  }

  /** The list does not depend on entries outside the keys it walks. */
  lemma {:induction false} MatchingIdsFrame(order: seq<string>, entries: map<string, License>, k: string, l: License,
                                            targets: seq<string>)
    requires forall x :: x in order ==> x in entries
    requires k !in order
    ensures MatchingIds(order, entries, targets) == MatchingIds(order, entries[k := l], targets)
    decreases |order|
  {
    if order != [] {
      MatchingIdsFrame(order[..|order| - 1], entries, k, l, targets);
    }
  }

  /** A catalog entry whose id appears nowhere earlier is not yet a key of the dict built from the entries before it. */
  lemma FreshIdNotInPrefix(catalog: seq<License>)
    requires catalog != []
    requires forall i :: 0 <= i < |catalog| - 1 ==> catalog[i].id != catalog[|catalog| - 1].id
    ensures catalog[|catalog| - 1].id !in BuildRegistry(catalog[..|catalog| - 1]).entries
  {
    var p := catalog[..|catalog| - 1];
    var id := catalog[|catalog| - 1].id;
    assert forall i :: 0 <= i < |p| ==> p[i].id != id;
  }

  /**
    For a catalog without duplicate ids, the allowed-id list is exactly the
    ids of the catalog entries whose name is allowed, in catalog order.
  */
  lemma {:induction false} MatchingIdsInCatalogOrder(catalog: seq<License>, targets: seq<string>)
    requires forall i, j :: 0 <= i < j < |catalog| ==> catalog[i].id != catalog[j].id
    ensures var r := BuildRegistry(catalog);
            MatchingIds(r.order, r.entries, targets) == CatalogMatches(catalog, targets)
    decreases |catalog|
  {
    if catalog != [] {
      var p := catalog[..|catalog| - 1];
      var l := catalog[|catalog| - 1];
      assert forall i, j :: 0 <= i < j < |p| ==> p[i].id != p[j].id by {
        assert forall i :: 0 <= i < |p| ==> p[i] == catalog[i];
      }
      MatchingIdsInCatalogOrder(p, targets);
      FreshIdNotInPrefix(catalog);
      var rp := BuildRegistry(p);
      var r := BuildRegistry(catalog);
      assert r == Registry(rp.order + [l.id], rp.entries[l.id := l]);
      assert r.order[..|r.order| - 1] == rp.order;
      MatchingIdsFrame(rp.order, rp.entries, l.id, l, targets);
    }
  }

  /** With no allowed name in the catalog, the id list is the empty string. */
  lemma {:induction false} AllowedIdsEmptyWhenNoneMatch(catalog: seq<License>, targets: seq<string>)
    requires forall i :: 0 <= i < |catalog| ==> catalog[i].name !in targets
    ensures AllowedIds(BuildRegistry(catalog), targets) == ""
  {
    var r := BuildRegistry(catalog);
    MatchingIdsMembers(r.order, r.entries, targets);
    var m := MatchingIds(r.order, r.entries, targets);
    if m != [] {
      var x := m[0];
      assert x in r.order && r.entries[x].name in targets;
      GetLicenseOfCatalog(catalog, x);
      assert false;
    }
  }

  /** Splitting a join of comma-free parts gives the parts back. */
  lemma {:induction false} SplitJoin(parts: seq<string>)
    requires |parts| > 0
    requires forall i :: 0 <= i < |parts| ==> ',' !in parts[i]
    ensures Split(Join(parts)) == parts
    decreases |parts|
  {
    if |parts| > 1 {
      SplitJoin(parts[1..]);
      SplitAtFirstComma(parts[0], Join(parts[1..]));
      assert parts == [parts[0]] + parts[1..];
    }
  }

  /** Splitting cuts at the first comma: a comma-free head comes off whole. */
  lemma SplitAtFirstComma(head: string, tail: string)
    requires ',' !in head
    ensures Split(head + "," + tail) == [head] + Split(tail)
  {
    var s := head + "," + tail;
    var i := FirstIndex(s, ',');
    assert s[..|head|] == head;
    assert s[|head|] == ',';
    assert s[..i] == head;
    assert s[i + 1..] == tail;
  }

  /**
    The id list the search sends is read back by splitting at "," into
    exactly the allowed ids (when no id holds a comma and some name matches).
  */
  lemma AllowedIdsRoundTrip(r: Registry, targets: seq<string>)
    requires Valid(r)
    requires forall k :: k in r.order ==> ',' !in k
    requires exists k :: k in r.order && r.entries[k].name in targets
    ensures Split(AllowedIds(r, targets)) == MatchingIds(r.order, r.entries, targets)
  {
    var m := MatchingIds(r.order, r.entries, targets);
    MatchingIdsMembers(r.order, r.entries, targets);
    var k :| k in r.order && r.entries[k].name in targets;
    assert k in m;
    assert forall i :: 0 <= i < |m| ==> m[i] in r.order;
    SplitJoin(m);
  }
}
