/** The browser's `localStorage` and the prefix-namespaced adapter the services keep
    their data in (src/services/storage/LocalStorageAdapter.ts). */
module LocalStorage {
  import opened Wrappers
  import opened Text
  import opened Seqs

  /** `JSON.stringify` and `JSON.parse` for the values of one stored type. `parse`
      answers `None` where `JSON.parse` throws. */
  datatype Codec<!T> = Codec(serialize: T -> string, parse: string -> Option<T>)

  /** Every value serializes to non-empty text that parses back to the value. */
  ghost predicate RoundTrips<T(!new)>(c: Codec<T>) {
    forall v :: c.serialize(v) != "" && c.parse(c.serialize(v)) == Some(v)
  }

  /** `getFullKey`: the physical key `prefix_key`. */
  function PhysicalKey(prefix: string, key: string): (r: string)
    ensures |r| == |prefix| + 1 + |key|
    ensures StartsWith(r, prefix + "_") && r[|prefix| + 1..] == key
  {
    prefix + "_" + key
  }

  /** Under one prefix, distinct logical keys have distinct physical keys. */
  lemma PhysicalKeyInjective(prefix: string, k1: string, k2: string)
    requires PhysicalKey(prefix, k1) == PhysicalKey(prefix, k2)
    ensures k1 == k2
  {
    assert k1 == PhysicalKey(prefix, k1)[|prefix| + 1..];
  }

  /** Two adapters whose prefixes hold no `_` never share a physical key unless they
      agree on prefix and key. */
  lemma SeparatorFreePrefixesSeparate(p1: string, k1: string, p2: string, k2: string)
    requires '_' !in p1 && '_' !in p2
    requires PhysicalKey(p1, k1) == PhysicalKey(p2, k2)
    ensures p1 == p2 && k1 == k2
  {
    var s := PhysicalKey(p1, k1);
    assert s[|p1|] == '_' && s[|p2|] == '_';
    assert |p1| == |p2|;
    assert p1 == s[..|p1|] == p2;
  }

  /** With a prefix that holds `_`, two adapters can address the same physical slot. */
  lemma PrefixesCanCollide()
    ensures PhysicalKey("srules", "x_favorites") == PhysicalKey("srules_x", "favorites")
  {
  }

  /** The logical keys that `getAllKeys` reports for the physical keys `physical`: those
      starting with `p`, with `p` stripped, in their order. */
  function KeysUnder(physical: seq<string>, p: string): (r: seq<string>)
    ensures |r| <= |physical|
  {
    if physical == [] then []
    else
      var last := physical[|physical| - 1];
      KeysUnder(physical[..|physical| - 1], p) + (if StartsWith(last, p) then [last[|p|..]] else [])
  }

  /** A logical key is reported exactly when its physical key is stored. */
  lemma {:induction false} KeysUnderMembers(physical: seq<string>, p: string, k: string)
    ensures k in KeysUnder(physical, p) <==> p + k in physical
  {
    if physical != [] {
      var init := physical[..|physical| - 1];
      var last := physical[|physical| - 1];
      KeysUnderMembers(init, p, k);
      assert physical == init + [last];
      if StartsWith(last, p) {
        assert last == p + last[|p|..];
        if p + k == last {
          assert k == (p + k)[|p|..];
        }
      }
    }
  }

  /** Distinct physical keys give distinct logical keys. */
  lemma {:induction false} KeysUnderDistinct(physical: seq<string>, p: string)
    requires Distinct(physical)
    ensures Distinct(KeysUnder(physical, p))
  {
    if physical != [] {
      var init := physical[..|physical| - 1];
      var last := physical[|physical| - 1];
      assert Distinct(init) by {
        forall i, j | 0 <= i < j < |init| ensures init[i] != init[j] {
          assert init[i] == physical[i] && init[j] == physical[j];
        }
      }
      KeysUnderDistinct(init, p);
      if StartsWith(last, p) {
        var k := last[|p|..];
        var front := KeysUnder(init, p);
        assert last == p + k;
        assert k !in front by {
          KeysUnderMembers(init, p, k);
          assert forall i :: 0 <= i < |init| ==> init[i] == physical[i];
        }
        forall i, j | 0 <= i < j < |front| + 1 ensures (front + [k])[i] != (front + [k])[j] {
          assert (front + [k])[i] == front[i];
          if j == |front| {
            assert front[i] in front;
          } else {
            assert (front + [k])[j] == front[j];
          }
        }
      }
    }
  }

  /** Between the store `items0`/`keys0` and the store `items1`/`keys1`, every physical
      key but `slot` kept its item and its place in the enumeration. */
  predicate OthersKept(slot: string, items0: map<string, string>, keys0: seq<string>,
                       items1: map<string, string>, keys1: seq<string>) {
    items1 - {slot} == items0 - {slot} && Filter(keys1, Except(slot)) == Filter(keys0, Except(slot))
  }

  /** `window.localStorage`: the items, and the enumeration order of `key(i)`.
      `hasWindow` is false where the code runs without a browser window. */
  class BrowserStorage {
    const hasWindow: bool
    var items: map<string, string>
    var keys: seq<string>

    ghost predicate Valid()
      reads this
    {
      Distinct(keys) && forall k :: k in items <==> k in keys
    }

    constructor (hasWindow: bool)
      ensures Valid()
      ensures this.hasWindow == hasWindow && items == map[] && keys == []
    {
      this.hasWindow := hasWindow;
      items := map[];
      keys := [];
    }

    /** `localStorage.setItem`: a new key is enumerated last, an existing one keeps its place. */
    method SetItem(key: string, value: string)
      requires Valid()
      modifies this
      ensures Valid()
      ensures items == old(items)[key := value]
      ensures keys == if key in old(items) then old(keys) else old(keys) + [key]
      ensures Filter(keys, Except(key)) == Filter(old(keys), Except(key))
    {
      if key !in items {
        FilterAppend(keys, key, Except(key));
        assert Filter(keys, Except(key)) + [] == Filter(keys, Except(key));
        forall i, j | 0 <= i < j < |keys| + 1 ensures (keys + [key])[i] != (keys + [key])[j] {
          assert (keys + [key])[i] == keys[i];
          if j == |keys| {
            assert keys[i] in keys;
          } else {
            assert (keys + [key])[j] == keys[j];
          }
        }
        keys := keys + [key];
      }
      items := items[key := value];
    }

    /** `localStorage.removeItem` */
    method RemoveItem(key: string)
      requires Valid()
      modifies this
      ensures Valid()
      ensures items == old(items) - {key}
      ensures keys == Filter(old(keys), Except(key))
      ensures Filter(keys, Except(key)) == Filter(old(keys), Except(key))
    {
      FilterDistinct(keys, Except(key));
      keys := Filter(keys, Except(key));
      FilterKeepsAll(keys, Except(key));
      items := items - {key};
    }
  }

  /** `LocalStorageAdapter<T>`: values of type `T` stored as JSON under `prefix_key`. */
  class LocalStorageAdapter<T(!new)> {
    const prefix: string
    const store: BrowserStorage
    const codec: Codec<T>

    ghost predicate Valid()
      reads store
    {
      store.Valid() && RoundTrips(codec)
    }

    constructor (store: BrowserStorage, codec: Codec<T>, prefix: string := "srules")
      ensures this.store == store && this.codec == codec && this.prefix == prefix
    {
      this.store := store;
      this.codec := codec;
      this.prefix := prefix;
    }

    function FullKey(key: string): string {
      PhysicalKey(prefix, key)
    }

    /** `get`: `None` without a window, for a missing or empty item and for text that
        does not parse; otherwise the parsed value. */
    function Get(key: string): (r: Option<T>)
      reads store
      ensures !store.hasWindow || FullKey(key) !in store.items ==> r == None
      ensures r.Some? ==> FullKey(key) in store.items && codec.parse(store.items[FullKey(key)]) == r
    {
      if !store.hasWindow then None
      else if FullKey(key) in store.items && store.items[FullKey(key)] != "" then
        codec.parse(store.items[FullKey(key)])
      else None
    }

    /** `set`: with a window, the value is read back by `Get` and no other key changes;
        without one nothing happens. */
    method Set(key: string, value: T)
      requires Valid()
      modifies store
      ensures Valid()
      ensures store.hasWindow ==> store.items == old(store.items)[FullKey(key) := codec.serialize(value)]
      ensures store.hasWindow ==>
        store.keys == if FullKey(key) in old(store.items) then old(store.keys) else old(store.keys) + [FullKey(key)]
      ensures !store.hasWindow ==> unchanged(store)
      ensures Filter(store.keys, Except(FullKey(key))) == Filter(old(store.keys), Except(FullKey(key)))
      ensures Get(key) == if store.hasWindow then Some(value) else None
      ensures forall k :: k != key ==> Get(k) == old(Get(k))
    {
      if store.hasWindow {
        store.SetItem(FullKey(key), codec.serialize(value));
        forall k | k != key ensures FullKey(k) != FullKey(key) {
          if FullKey(k) == FullKey(key) {
            PhysicalKeyInjective(prefix, k, key);
          }
        }
      }
    }

    /** `remove`: afterwards `Get` finds nothing for the key; other keys are untouched. */
    method Remove(key: string)
      requires Valid()
      modifies store
      ensures Valid()
      ensures store.hasWindow ==> store.items == old(store.items) - {FullKey(key)}
      ensures store.hasWindow ==> store.keys == Filter(old(store.keys), Except(FullKey(key)))
      ensures !store.hasWindow ==> unchanged(store)
      ensures Filter(store.keys, Except(FullKey(key))) == Filter(old(store.keys), Except(FullKey(key)))
      ensures Get(key) == None
      ensures forall k :: k != key ==> Get(k) == old(Get(k))
    {
      if store.hasWindow {
        store.RemoveItem(FullKey(key));
        forall k | k != key ensures FullKey(k) != FullKey(key) {
          if FullKey(k) == FullKey(key) {
            PhysicalKeyInjective(prefix, k, key);
          }
        }
      }
    }

    /** `getAllKeys`: the logical keys of every stored item under this prefix, in the
        store's order, each once. */
    method GetAllKeys() returns (keys: seq<string>)
      requires Valid()
      ensures keys == if store.hasWindow then KeysUnder(store.keys, prefix + "_") else []
      ensures forall k :: k in keys <==> store.hasWindow && FullKey(k) in store.items
      ensures Distinct(keys)
    {
      if !store.hasWindow {
        return [];
      }
      keys := [];
      var p := prefix + "_";
      var i := 0;
      while i < |store.keys|
        invariant 0 <= i <= |store.keys|
        invariant keys == KeysUnder(store.keys[..i], p)
      {
        var key := store.keys[i];
        if StartsWith(key, p) {
          keys := keys + [key[|p|..]];
        }
        assert store.keys[..i + 1][..i] == store.keys[..i];
        i := i + 1;
      }
      assert store.keys[..i] == store.keys;
      KeysUnderDistinct(store.keys, p);
      forall k ensures k in keys <==> FullKey(k) in store.items {
        KeysUnderMembers(store.keys, p, k);
        assert p + k == FullKey(k);
      }
    }
  }
}
