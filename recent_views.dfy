/** The list of recently viewed rules, newest first and capped in length
    (src/services/RecentViewService.ts). */
module RecentViews {
  import opened Wrappers
  import opened Seqs
  import opened LocalStorage
  import opened ArrayStorage

  /** One visit: the rule's slug and title and the visit's ISO-8601 timestamp. */
  datatype RecentViewItem = RecentViewItem(slug: string, title: string, viewedAt: string)

  /** The predicate `v => v.slug === slug`. */
  function ViewHasSlug(slug: string): (p: RecentViewItem -> bool)
    ensures forall v :: p(v) <==> v.slug == slug
  {
    (v: RecentViewItem) => v.slug == slug
  }

  /** JavaScript's `a <= b` on strings: lexicographic order of the characters. On ISO-8601
      timestamps of one width this is the order in time. */
  predicate NotAfter(a: string, b: string) {
    a == [] || (b != [] && (a[0] < b[0] || (a[0] == b[0] && NotAfter(a[1..], b[1..]))))
  }

  /** No slug occurs twice. */
  predicate UniqueViewSlugs(xs: seq<RecentViewItem>) {
    Pairwise(xs, (a: RecentViewItem, b: RecentViewItem) => a.slug != b.slug)
  }

  /** Every entry was viewed no earlier than the entries after it. */
  predicate NewestFirst(xs: seq<RecentViewItem>) {
    Pairwise(xs, (a: RecentViewItem, b: RecentViewItem) => NotAfter(b.viewedAt, a.viewedAt))
  }

  /** The list `addRecentView` stores: earlier entries for the slug dropped, the new visit
      put in front, then cut to `maxItems` entries when longer. */
  function WithView(items: seq<RecentViewItem>, slug: string, title: string, now: string, maxItems: int)
    : seq<RecentViewItem>
  {
    var front := [RecentViewItem(slug, title, now)] + Filter(items, Not(ViewHasSlug(slug)));
    if |front| > maxItems then Slice(front, maxItems) else front
  }

  /** With room for at least one entry, the new visit heads the list, no other entry has
      its slug, and the other entries are the oldest-dropped remains of the list in their
      order. */
  lemma WithViewFront(items: seq<RecentViewItem>, slug: string, title: string, now: string, maxItems: int)
    requires maxItems >= 1
    ensures var r := WithView(items, slug, title, now, maxItems);
      && r != [] && r[0] == RecentViewItem(slug, title, now)
      && (forall i :: 1 <= i < |r| ==> r[i].slug != slug)
      && r[1..] == Filter(items, Not(ViewHasSlug(slug)))[..|r| - 1]
  {
    var kept := Filter(items, Not(ViewHasSlug(slug)));
    var front := [RecentViewItem(slug, title, now)] + kept;
    var r := WithView(items, slug, title, now, maxItems);
    assert r == front[..|r|];
    forall i | 1 <= i < |r| ensures r[i].slug != slug {
      assert r[i] == kept[i - 1];
    }
    assert r[1..] == kept[..|r| - 1];
  }

  /** A non-negative cap bounds the length. */
  lemma WithViewCapped(items: seq<RecentViewItem>, slug: string, title: string, now: string, maxItems: int)
    requires maxItems >= 0
    ensures |WithView(items, slug, title, now, maxItems)| <= maxItems
  {
  }

  /** Slugs stay unique. */
  lemma WithViewUnique(items: seq<RecentViewItem>, slug: string, title: string, now: string, maxItems: int)
    requires UniqueViewSlugs(items)
    ensures UniqueViewSlugs(WithView(items, slug, title, now, maxItems))
  {
    var before := (a: RecentViewItem, b: RecentViewItem) => a.slug != b.slug;
    var kept := Filter(items, Not(ViewHasSlug(slug)));
    FilterPairwise(items, Not(ViewHasSlug(slug)), before);
    var front := [RecentViewItem(slug, title, now)] + kept;
    forall i, j | 0 <= i < j < |front| ensures before(front[i], front[j]) {
      assert front[j] == kept[j - 1];
      if i > 0 {
        assert front[i] == kept[i - 1];
      } else {
        assert !ViewHasSlug(slug)(kept[j - 1]) by { assert Not(ViewHasSlug(slug))(kept[j - 1]); }
      }
    }
    var r := WithView(items, slug, title, now, maxItems);
    PrefixPairwise(front, |r|, before);
  }

  /** A visit no earlier than every stored one keeps the list newest first. */
  lemma WithViewNewestFirst(items: seq<RecentViewItem>, slug: string, title: string, now: string, maxItems: int)
    requires NewestFirst(items)
    requires forall i :: 0 <= i < |items| ==> NotAfter(items[i].viewedAt, now)
    ensures NewestFirst(WithView(items, slug, title, now, maxItems))
  {
    var before := (a: RecentViewItem, b: RecentViewItem) => NotAfter(b.viewedAt, a.viewedAt);
    var kept := Filter(items, Not(ViewHasSlug(slug)));
    FilterPairwise(items, Not(ViewHasSlug(slug)), before);
    var front := [RecentViewItem(slug, title, now)] + kept;
    forall i, j | 0 <= i < j < |front| ensures before(front[i], front[j]) {
      assert front[j] == kept[j - 1];
      if i > 0 {
        assert front[i] == kept[i - 1];
      } else {
        assert kept[j - 1] in items;
      }
    }
    var r := WithView(items, slug, title, now, maxItems);
    PrefixPairwise(front, |r|, before);
  }

  /** Among unique slugs, exactly one entry is dropped for a slug that is present. */
  lemma {:induction false} FilterDropsOne(items: seq<RecentViewItem>, slug: string)
    requires UniqueViewSlugs(items)
    requires Any(items, ViewHasSlug(slug))
    ensures |Filter(items, Not(ViewHasSlug(slug)))| == |items| - 1
  {
    var p := Not(ViewHasSlug(slug));
    assert UniqueViewSlugs(items[1..]) by {
      forall i, j | 0 <= i < j < |items[1..]| ensures items[1..][i].slug != items[1..][j].slug {
        assert items[1..][i] == items[i + 1] && items[1..][j] == items[j + 1];
      }
    }
    if items[0].slug == slug {
      forall i | 0 <= i < |items[1..]| ensures p(items[1..][i]) {
        assert items[1..][i] == items[i + 1];
      }
      FilterKeepsAll(items[1..], p);
    } else {
      var k :| 0 <= k < |items| && ViewHasSlug(slug)(items[k]);
      assert items[1..][k - 1] == items[k];
      FilterDropsOne(items[1..], slug);
    }
  }

  /** Viewing again a rule that is in a list within the cap moves it to the front with
      the new time and keeps the length. */
  lemma MoveToFront(items: seq<RecentViewItem>, slug: string, title: string, now: string, maxItems: int)
    requires UniqueViewSlugs(items)
    requires Any(items, ViewHasSlug(slug))
    requires |items| <= maxItems
    ensures var r := WithView(items, slug, title, now, maxItems);
      |r| == |items| && r[0] == RecentViewItem(slug, title, now)
  {
    FilterDropsOne(items, slug);
  }

  /** The list after a series of visits, replayed in order from `start`. */
  function Replay(start: seq<RecentViewItem>, visits: seq<RecentViewItem>, maxItems: int): seq<RecentViewItem>
  {
    if visits == [] then start
    else
      var last := visits[|visits| - 1];
      WithView(Replay(start, visits[..|visits| - 1], maxItems), last.slug, last.title, last.viewedAt, maxItems)
  }

  /** Each entry after a replay from the empty list records one of the visits. */
  lemma {:induction false} ReplayRecordsVisits(visits: seq<RecentViewItem>, maxItems: int)
    ensures forall x :: x in Replay([], visits, maxItems) ==> x in visits
  {
    if visits != [] {
      var init := visits[..|visits| - 1];
      var last := visits[|visits| - 1];
      ReplayRecordsVisits(init, maxItems);
      var prev := Replay([], init, maxItems);
      var front := [last] + Filter(prev, Not(ViewHasSlug(last.slug)));
      forall x | x in Replay([], visits, maxItems) ensures x in visits {
        assert x in front;
        if x != last {
          assert x in prev;
          assert x in init;
        }
      }
    }
  }

  /** Replaying visits in time order from the empty list gives a list that is newest
      first, has no slug twice and, for a non-negative cap, is within the cap. */
  lemma {:induction false} ReplayInvariant(visits: seq<RecentViewItem>, maxItems: int)
    requires Pairwise(visits, (a: RecentViewItem, b: RecentViewItem) => NotAfter(a.viewedAt, b.viewedAt))
    ensures var r := Replay([], visits, maxItems);
      NewestFirst(r) && UniqueViewSlugs(r) && (maxItems >= 0 ==> |r| <= maxItems)
  {
    if visits != [] {
      var init := visits[..|visits| - 1];
      var last := visits[|visits| - 1];
      assert Pairwise(init, (a: RecentViewItem, b: RecentViewItem) => NotAfter(a.viewedAt, b.viewedAt)) by {
        forall i, j | 0 <= i < j < |init| ensures NotAfter(init[i].viewedAt, init[j].viewedAt) {
          assert init[i] == visits[i] && init[j] == visits[j];
        }
      }
      ReplayInvariant(init, maxItems);
      var prev := Replay([], init, maxItems);
      ReplayRecordsVisits(init, maxItems);
      forall i | 0 <= i < |prev| ensures NotAfter(prev[i].viewedAt, last.viewedAt) {
        assert prev[i] in init;
        var k :| 0 <= k < |init| && init[k] == prev[i];
        assert visits[k] == prev[i];
      }
      WithViewNewestFirst(prev, last.slug, last.title, last.viewedAt, maxItems);
      WithViewUnique(prev, last.slug, last.title, last.viewedAt, maxItems);
    }
  }

  class RecentViewService {
    const storage: ArrayStorageAdapter<RecentViewItem>
    const maxItems: int

    ghost predicate Valid()
      reads storage.storage.store
    {
      storage.Valid()
    }

    /** `new RecentViewService(storage, maxItems = 10)` */
    constructor (storage: ArrayStorageAdapter<RecentViewItem>, maxItems: int := 10)
      requires storage.Valid()
      ensures Valid() && this.storage == storage && this.maxItems == maxItems
    {
      this.storage := storage;
      this.maxItems := maxItems;
    }

    /** `new RecentViewService()`: the list under key `recent_views`, prefix `srules`. */
    constructor Default(store: BrowserStorage, codec: Codec<seq<RecentViewItem>>, maxItems: int := 10)
      requires store.Valid() && RoundTrips(codec)
      ensures Valid() && this.maxItems == maxItems
      ensures storage.key == "recent_views" && storage.storage.prefix == "srules"
      ensures storage.Store() == store
    {
      storage := new ArrayStorageAdapter(store, codec, "recent_views", "srules");
      this.maxItems := maxItems;
    }

    function Store(): BrowserStorage {
      storage.Store()
    }

    /** `getRecentViews` */
    function GetRecentViews(): seq<RecentViewItem>
      reads storage.storage.store
    {
      storage.GetAll()
    }

    /** `addRecentView`, with the clock's ISO-8601 reading passed in as `now`. */
    method AddRecentView(slug: string, title: string, now: string)
      requires Valid()
      modifies storage.storage.store
      ensures Valid()
      ensures OthersKept(storage.Slot(), old(Store().items), old(Store().keys), Store().items, Store().keys)
      ensures GetRecentViews() ==
        if Store().hasWindow then WithView(old(GetRecentViews()), slug, title, now, maxItems) else []
      ensures Store().hasWindow && maxItems >= 1 ==> GetRecentViews()[0] == RecentViewItem(slug, title, now)
      ensures maxItems >= 0 ==> |GetRecentViews()| <= maxItems
      ensures old(UniqueViewSlugs(GetRecentViews())) ==> UniqueViewSlugs(GetRecentViews())
    {
      ghost var before := GetRecentViews();
      var items := storage.GetAll();
      items := Filter(items, Not(ViewHasSlug(slug)));
      items := [RecentViewItem(slug, title, now)] + items;
      if |items| > maxItems {
        items := Slice(items, maxItems);
      }
      storage.SetAll(items);
      if maxItems >= 1 {
        WithViewFront(before, slug, title, now, maxItems);
      }
      if UniqueViewSlugs(before) {
        WithViewUnique(before, slug, title, now, maxItems);
      }
    }

    /** `removeRecentView`: reports whether an entry had the slug; all such entries go. */
    method RemoveRecentView(slug: string) returns (removed: bool)
      requires Valid()
      modifies storage.storage.store
      ensures Valid()
      ensures OthersKept(storage.Slot(), old(Store().items), old(Store().keys), Store().items, Store().keys)
      ensures removed <==> exists i :: 0 <= i < |old(GetRecentViews())| && old(GetRecentViews())[i].slug == slug
      ensures GetRecentViews() == Filter(old(GetRecentViews()), Not(ViewHasSlug(slug)))
    {
      ghost var before := GetRecentViews();
      removed := storage.Remove(ViewHasSlug(slug));
      if !removed {
        FilterKeepsAll(before, Not(ViewHasSlug(slug)));
      }
      assert forall i :: 0 <= i < |before| ==> (ViewHasSlug(slug)(before[i]) <==> before[i].slug == slug);
    }

    /** `clearRecentViews` */
    method ClearRecentViews()
      requires Valid()
      modifies storage.storage.store
      ensures Valid()
      ensures OthersKept(storage.Slot(), old(Store().items), old(Store().keys), Store().items, Store().keys)
      ensures GetRecentViews() == []
    {
      storage.Clear();
    }
  }
}
