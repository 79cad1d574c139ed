/** A list of values kept under one key of a `LocalStorageAdapter`
    (src/services/storage/ArrayStorageAdapter.ts). */
module ArrayStorage {
  import opened Wrappers
  import opened Seqs
  import opened LocalStorage

  class ArrayStorageAdapter<T(!new)> {
    const storage: LocalStorageAdapter<seq<T>>
    const key: string

    ghost predicate Valid()
      reads storage.store
    {
      storage.Valid()
    }

    constructor (store: BrowserStorage, codec: Codec<seq<T>>, key: string, prefix: string := "srules")
      requires store.Valid() && RoundTrips(codec)
      ensures Valid()
      ensures this.key == key && storage.store == store && storage.codec == codec && storage.prefix == prefix
    {
      storage := new LocalStorageAdapter(store, codec, prefix);
      this.key := key;
    }

    /** The store this list lives in. */
    function Store(): BrowserStorage {
      storage.store
    }

    /** The physical key the list is stored under. */
    function Slot(): string {
      storage.FullKey(key)
    }

    /** `getAll`: the stored list, or the empty list when nothing (readable) is stored. */
    function GetAll(): (r: seq<T>)
      reads storage.store
      ensures !Store().hasWindow || storage.FullKey(key) !in Store().items ==> r == []
      ensures storage.Get(key).Some? ==> r == storage.Get(key).value
    {
      storage.Get(key).GetOr([])
    }

    /** `add`: the item is appended at the end. */
    method Add(item: T)
      requires Valid()
      modifies storage.store
      ensures Valid()
      ensures GetAll() == if Store().hasWindow then old(GetAll()) + [item] else []
      ensures Store().hasWindow ==> Store().items == old(Store().items)[Slot() := storage.codec.serialize(old(GetAll()) + [item])]
      ensures Store().hasWindow ==>
        Store().keys == if Slot() in old(Store().items) then old(Store().keys) else old(Store().keys) + [Slot()]
      ensures !Store().hasWindow ==> unchanged(storage.store)
      ensures OthersKept(Slot(), old(Store().items), old(Store().keys), Store().items, Store().keys)
      ensures forall k :: k != key ==> storage.Get(k) == old(storage.Get(k))
    {
      var items := GetAll();
      items := items + [item];
      storage.Set(key, items);
    }

    /** `remove`: reports whether any item satisfied `p`; if so the list keeps exactly
        the others, in their order, and otherwise nothing is written. */
    method Remove(p: T -> bool) returns (removed: bool)
      requires Valid()
      modifies storage.store
      ensures Valid()
      ensures removed == Any(old(GetAll()), p)
      ensures removed ==> GetAll() == Filter(old(GetAll()), Not(p))
      ensures removed ==> Store().items == old(Store().items)[Slot() := storage.codec.serialize(Filter(old(GetAll()), Not(p)))]
      ensures removed ==> Store().keys == old(Store().keys)
      ensures !removed ==> unchanged(storage.store)
      ensures !Any(GetAll(), p)
      ensures OthersKept(Slot(), old(Store().items), old(Store().keys), Store().items, Store().keys)
      ensures forall k :: k != key ==> storage.Get(k) == old(storage.Get(k))
    {
      var items := GetAll();
      var filtered := Filter(items, Not(p));
      if |filtered| != |items| {
        storage.Set(key, filtered);
        return true;
      }
      return false;
    }

    /** `exists`: some stored item satisfies `p`. */
    function Exists(p: T -> bool): (r: bool)
      reads storage.store
      ensures r <==> exists i :: 0 <= i < |GetAll()| && p(GetAll()[i])
    {
      Any(GetAll(), p)
    }

    /** `setAll`: the list is replaced. */
    method SetAll(items: seq<T>)
      requires Valid()
      modifies storage.store
      ensures Valid()
      ensures GetAll() == if Store().hasWindow then items else []
      ensures Store().hasWindow ==> Store().items == old(Store().items)[Slot() := storage.codec.serialize(items)]
      ensures Store().hasWindow ==>
        Store().keys == if Slot() in old(Store().items) then old(Store().keys) else old(Store().keys) + [Slot()]
      ensures !Store().hasWindow ==> unchanged(storage.store)
      ensures OthersKept(Slot(), old(Store().items), old(Store().keys), Store().items, Store().keys)
      ensures forall k :: k != key ==> storage.Get(k) == old(storage.Get(k))
    {
      storage.Set(key, items);
    }

    /** `clear`: the item is removed, so the list reads as empty. */
    method Clear()
      requires Valid()
      modifies storage.store
      ensures Valid()
      ensures GetAll() == []
      ensures Store().hasWindow ==> Store().items == old(Store().items) - {Slot()}
      ensures Store().hasWindow ==> Store().keys == Filter(old(Store().keys), Except(Slot()))
      ensures !Store().hasWindow ==> unchanged(storage.store)
      ensures OthersKept(Slot(), old(Store().items), old(Store().keys), Store().items, Store().keys)
      ensures forall k :: k != key ==> storage.Get(k) == old(storage.Get(k))
    {
      storage.Remove(key);
    }
  }
}
