/**
 * The in-memory store of data/store.js: a JavaScript `Map` from hash to record.
 * A `Map` iterates its entries in the order their keys were first inserted, so
 * the store keeps that key order beside the entries.
 */
module Store {
  import opened Wrappers
  import opened Analyzer

  /** No key is listed twice. */
  predicate Distinct(keys: seq<Digest>) {
    forall i, j :: 0 <= i < j < |keys| ==> keys[i] != keys[j]
  }

  /** The first position of `h` in `keys`, or -1. */
  function IndexOf(keys: seq<Digest>, h: Digest): (k: int)
    ensures -1 <= k < |keys|
    ensures k == -1 <==> h !in keys
    ensures k >= 0 ==> keys[k] == h && h !in keys[..k]
  {
    if keys == [] then -1
    else if keys[0] == h then 0
    else
      var k := IndexOf(keys[1..], h);
      assert k >= 0 ==> keys[1..][..k] == keys[1..k + 1];
      if k == -1 then -1 else k + 1
  }

  /** A duplicate-free key listing without `h`: spliced out at its position, the others in their order. */
  function Without(keys: seq<Digest>, h: Digest): (r: seq<Digest>)
    requires Distinct(keys)
    ensures forall k :: k in r <==> k in keys && k != h
    ensures Distinct(r)
    ensures h in keys ==> |r| == |keys| - 1
    ensures h !in keys ==> r == keys
  {
    var k := IndexOf(keys, h);
    if k == -1 then keys
    else
      var r := keys[..k] + keys[k + 1..];
      assert forall i :: 0 <= i < |r| ==> r[i] == keys[if i < k then i else i + 1];
      r
  }

  /** The values of `entries` listed in the order of `keys`. */
  function ValuesOf<V>(keys: seq<Digest>, entries: map<Digest, V>): (vs: seq<V>)
    requires forall h :: h in keys ==> h in entries
    ensures |vs| == |keys|
    ensures forall i :: 0 <= i < |keys| ==> vs[i] == entries[keys[i]]
  {
    seq(|keys|, i requires 0 <= i < |keys| => entries[keys[i]])
  }

  /** Inserting a new key lists its value last and leaves the others as they were. */
  lemma ValuesAfterInsert<V>(keys: seq<Digest>, entries: map<Digest, V>, h: Digest, d: V)
    requires (forall k :: k in keys ==> k in entries) && h !in keys
    ensures ValuesOf(keys + [h], entries[h := d]) == ValuesOf(keys, entries) + [d]
  {
    var a, b := ValuesOf(keys + [h], entries[h := d]), ValuesOf(keys, entries) + [d];
    forall i | 0 <= i < |a| ensures a[i] == b[i] {
      if i < |keys| {
        assert (keys + [h])[i] == keys[i] != h;
      }
    }
  }

  /** Deleting a listed key removes its value from the listing and keeps the others in order. */
  lemma ValuesAfterDelete<V>(keys: seq<Digest>, entries: map<Digest, V>, h: Digest)
    requires (forall k :: k in keys ==> k in entries) && Distinct(keys) && h in keys
    ensures var k, vs := IndexOf(keys, h), ValuesOf(keys, entries);
      ValuesOf(Without(keys, h), entries - {h}) == vs[..k] + vs[k + 1..]
  {
    var k, rest := IndexOf(keys, h), Without(keys, h);
    assert rest == keys[..k] + keys[k + 1..];
    ValuesWithoutUnlisted(rest, entries, h);
    ValuesOfSplice(keys, entries, k);
  }

  /** Dropping an unlisted key from the map does not change the listing. */
  lemma ValuesWithoutUnlisted<V>(keys: seq<Digest>, entries: map<Digest, V>, h: Digest)
    requires (forall k :: k in keys ==> k in entries) && h !in keys
    ensures ValuesOf(keys, entries - {h}) == ValuesOf(keys, entries)
  {
  }

  /** Listing the keys with the one at position `k` spliced out splices out its value. */
  lemma ValuesOfSplice<V>(keys: seq<Digest>, entries: map<Digest, V>, k: nat)
    requires (forall h :: h in keys ==> h in entries) && k < |keys|
    ensures ValuesOf(keys[..k] + keys[k + 1..], entries)
      == ValuesOf(keys, entries)[..k] + ValuesOf(keys, entries)[k + 1..]
  {
    var ks, vs := keys[..k] + keys[k + 1..], ValuesOf(keys, entries);
    var a, b := ValuesOf(ks, entries), vs[..k] + vs[k + 1..];
    assert |a| == |b|;
    forall i | 0 <= i < |a| ensures a[i] == b[i] {
      var j := if i < k then i else i + 1;
      assert ks[i] == keys[j];
      assert b[i] == vs[j];
    }
  }

  /** `keys` lists each key of `entries` exactly once. */
  ghost predicate Listed<V>(keys: seq<Digest>, entries: map<Digest, V>) {
    && Distinct(keys)
    && (forall h :: h in entries <==> h in keys)
    && |keys| == |entries|
  }

  /** Deleting a key from the map and from its listing keeps the one listing the other. */
  lemma ListedAfterDelete<V>(keys: seq<Digest>, entries: map<Digest, V>, h: Digest)
    requires Listed(keys, entries) && h in entries
    ensures Listed(Without(keys, h), entries - {h})
    ensures |entries - {h}| == |entries| - 1
  {
    assert (entries - {h}).Keys == entries.Keys - {h};
  }

  class Store<V> {
    var entries: map<Digest, V>
    var order: seq<Digest>  // keys in first-insertion order

    ghost predicate Valid()
      reads this
    {
      Listed(order, entries)
    }

    /** The values in iteration order, `Array.from(store.values())`. */
    function Values(): (vs: seq<V>)
      reads this
      requires Valid()
      ensures |vs| == |entries|
      ensures forall i :: 0 <= i < |order| ==> vs[i] == entries[order[i]]
    {
      ValuesOf(order, entries)
    }

    constructor ()
      ensures Valid() && entries == map[] && order == []
    {
      entries, order := map[], [];
    }

    /** `saveString(hash, data)`: a new key goes last; an existing key keeps its place and gets the new value. */
    method Save(h: Digest, d: V)
      requires Valid()
      modifies this
      ensures Valid()
      ensures entries == old(entries)[h := d]
      ensures order == if h in old(entries) then old(order) else old(order) + [h]
      ensures h !in old(entries) ==> Values() == old(Values()) + [d]
    {
      if h !in entries {
        order := order + [h];
      }
      entries := entries[h := d];
      if h !in old(entries) {
        ValuesAfterInsert(old(order), old(entries), h, d);
      }
    }

    /** `getStringByHash(hash)`: the stored value, or null when the key is absent. */
    method GetByHash(h: Digest) returns (r: Option<V>)
      ensures r.Some? <==> h in entries
      ensures r.Some? ==> r.value == entries[h]
    {
      r := if h in entries then Some(entries[h]) else None;
    }

    /** `getAllStrings()`: one value per key, in insertion order. */
    method GetAll() returns (vs: seq<V>)
      requires Valid()
      ensures vs == Values()
    {
      vs := ValuesOf(order, entries);
    }

    /** `stringExists(hash)`. */
    method Exists(h: Digest) returns (b: bool)
      ensures b <==> h in entries
    {
      b := h in entries;
    }

    /** `deleteString(hash)`: reports whether the key was there; it is gone afterwards, and nothing else changes. */
    method Delete(h: Digest) returns (existed: bool)
      requires Valid()
      modifies this
      ensures Valid()
      ensures existed <==> h in old(entries)
      ensures entries == old(entries) - {h}
      ensures order == Without(old(order), h)
      ensures existed ==> |entries| == old(|entries|) - 1
      ensures !existed ==> entries == old(entries) && order == old(order)
      ensures existed ==>
        var k := IndexOf(old(order), h); Values() == old(Values())[..k] + old(Values())[k + 1..]
    {
      existed := h in entries;
      if !existed {
        assert entries - {h} == entries;
        return;
      }
      ValuesAfterDelete(order, entries, h);
      ListedAfterDelete(order, entries, h);
      entries := entries - {h};
      order := Without(order, h);
    }
  }
}
