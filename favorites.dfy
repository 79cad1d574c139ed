/** The favourites list kept in client storage (src/services/FavoriteService.ts). */
module Favorites {
  import opened Wrappers
  import opened Seqs
  import opened LocalStorage
  import opened ArrayStorage

  /** A favourite rule, identified by its slug. */
  datatype FavoriteItem = FavoriteItem(
    slug: string,
    title: string,
    excerpt: Option<string>,
    author: Option<string>,
    created: string,
    difficulty: Option<string>,
    category: seq<string>,
    tags: seq<string>)

  /** The predicate `f => f.slug === slug`. */
  function HasSlug(slug: string): (p: FavoriteItem -> bool)
    ensures forall f :: p(f) <==> f.slug == slug
  {
    (f: FavoriteItem) => f.slug == slug
  }

  /** At most one favourite per slug. */
  predicate UniqueSlugs(xs: seq<FavoriteItem>) {
    forall i, j :: 0 <= i < j < |xs| ==> xs[i].slug != xs[j].slug
  }

  /** Appending an item whose slug the list lacks keeps the slugs unique. */
  lemma AppendKeepsUnique(xs: seq<FavoriteItem>, item: FavoriteItem)
    requires UniqueSlugs(xs)
    requires !Any(xs, HasSlug(item.slug))
    ensures UniqueSlugs(xs + [item])
  {
    forall i, j | 0 <= i < j < |xs| + 1 ensures (xs + [item])[i].slug != (xs + [item])[j].slug {
      assert (xs + [item])[i] == xs[i];
      if j < |xs| {
        assert (xs + [item])[j] == xs[j];
      } else {
        assert !HasSlug(item.slug)(xs[i]);
      }
    }
  }

  /** Removing by slug keeps the slugs unique. */
  lemma RemoveKeepsUnique(xs: seq<FavoriteItem>, slug: string)
    requires UniqueSlugs(xs)
    ensures UniqueSlugs(Filter(xs, Not(HasSlug(slug))))
  {
    FilterPairwise(xs, Not(HasSlug(slug)), (a: FavoriteItem, b: FavoriteItem) => a.slug != b.slug);
  }

  /** Taking off again the slug of an item just appended gives back the list. */
  lemma RemoveAfterAppend(xs: seq<FavoriteItem>, item: FavoriteItem)
    requires !Any(xs, HasSlug(item.slug))
    ensures Filter(xs + [item], Not(HasSlug(item.slug))) == xs
  {
    FilterAppend(xs, item, Not(HasSlug(item.slug)));
    FilterKeepsAll(xs, Not(HasSlug(item.slug)));
  }

  class FavoriteService {
    const storage: ArrayStorageAdapter<FavoriteItem>

    ghost predicate Valid()
      reads storage.storage.store
    {
      storage.Valid()
    }

    /** `new FavoriteService(storage)` */
    constructor (storage: ArrayStorageAdapter<FavoriteItem>)
      requires storage.Valid()
      ensures Valid() && this.storage == storage
    {
      this.storage := storage;
    }

    /** `new FavoriteService()`: the list under key `favorites`, prefix `srules`. */
    constructor Default(store: BrowserStorage, codec: Codec<seq<FavoriteItem>>)
      requires store.Valid() && RoundTrips(codec)
      ensures Valid()
      ensures storage.key == "favorites" && storage.storage.prefix == "srules"
      ensures storage.Store() == store
    {
      storage := new ArrayStorageAdapter(store, codec, "favorites", "srules");
    }

    function Store(): BrowserStorage {
      storage.Store()
    }

    /** `getFavorites` */
    function GetFavorites(): seq<FavoriteItem>
      reads storage.storage.store
    {
      storage.GetAll()
    }

    /** `isFavorite`: some stored favourite has the slug. */
    function IsFavorite(slug: string): (r: bool)
      reads storage.storage.store
      ensures r <==> exists i :: 0 <= i < |GetFavorites()| && GetFavorites()[i].slug == slug
    {
      var xs := GetFavorites();
      assert forall i :: 0 <= i < |xs| ==> (HasSlug(slug)(xs[i]) <==> xs[i].slug == slug);
      storage.Exists(HasSlug(slug))
    }

    /** `addFavorite`: appends the item unless its slug is already a favourite. */
    method AddFavorite(item: FavoriteItem)
      requires Valid()
      modifies storage.storage.store
      ensures Valid()
      ensures OthersKept(storage.Slot(), old(Store().items), old(Store().keys), Store().items, Store().keys)
      ensures GetFavorites() ==
        if !Store().hasWindow then []
        else if old(IsFavorite(item.slug)) then old(GetFavorites())
        else old(GetFavorites()) + [item]
      ensures Store().hasWindow ==> IsFavorite(item.slug)
      ensures old(UniqueSlugs(GetFavorites())) ==> UniqueSlugs(GetFavorites())
    {
      if !IsFavorite(item.slug) {
        ghost var before := GetFavorites();
        storage.Add(item);
        if UniqueSlugs(before) {
          AppendKeepsUnique(before, item);
        }
        assert Store().hasWindow ==> GetFavorites()[|before|] == item;
      }
    }

    /** `removeFavorite`: every favourite with the slug goes, the rest keep their order. */
    method RemoveFavorite(slug: string)
      requires Valid()
      modifies storage.storage.store
      ensures Valid()
      ensures OthersKept(storage.Slot(), old(Store().items), old(Store().keys), Store().items, Store().keys)
      ensures GetFavorites() == Filter(old(GetFavorites()), Not(HasSlug(slug)))
      ensures !IsFavorite(slug)
      ensures old(UniqueSlugs(GetFavorites())) ==> UniqueSlugs(GetFavorites())
    {
      ghost var before := GetFavorites();
      var removed := storage.Remove(HasSlug(slug));
      if !removed {
        FilterKeepsAll(before, Not(HasSlug(slug)));
      }
      if UniqueSlugs(before) {
        RemoveKeepsUnique(before, slug);
      }
    }

    /** `toggleFavorite`: answers true when the item was added, false when it was removed. */
    method ToggleFavorite(item: FavoriteItem) returns (added: bool)
      requires Valid()
      modifies storage.storage.store
      ensures Valid()
      ensures OthersKept(storage.Slot(), old(Store().items), old(Store().keys), Store().items, Store().keys)
      ensures added == !old(IsFavorite(item.slug))
      ensures Store().hasWindow ==> IsFavorite(item.slug) == added
      ensures GetFavorites() ==
        if added then (if Store().hasWindow then old(GetFavorites()) + [item] else [])
        else Filter(old(GetFavorites()), Not(HasSlug(item.slug)))
      ensures old(UniqueSlugs(GetFavorites())) ==> UniqueSlugs(GetFavorites())
    {
      var present := IsFavorite(item.slug);
      if present {
        RemoveFavorite(item.slug);
        return false;
      } else {
        AddFavorite(item);
        return true;
      }
    }

    /** `clearFavorites` */
    method ClearFavorites()
      requires Valid()
      modifies storage.storage.store
      ensures Valid()
      ensures OthersKept(storage.Slot(), old(Store().items), old(Store().keys), Store().items, Store().keys)
      ensures GetFavorites() == []
    {
      storage.Clear();
    }
  }

  /** Toggling an item on and straight off again answers (true, false) and leaves the
      favourites as they were. */
  method ToggleTwice(service: FavoriteService, item: FavoriteItem) returns (first: bool, second: bool)
    requires service.Valid() && service.Store().hasWindow
    requires !service.IsFavorite(item.slug)
    modifies service.storage.storage.store
    ensures first && !second
    ensures service.GetFavorites() == old(service.GetFavorites())
  {
    ghost var before := service.GetFavorites();
    first := service.ToggleFavorite(item);
    second := service.ToggleFavorite(item);
    RemoveAfterAppend(before, item);
  }
}
