/** The wishlist store of src/contexts/WishlistContext.tsx: the current user's wishlists and
    their items, the recommendation catalog, the filter state, and the filtered, sorted view
    of the catalog. */
module WishlistContext {
  import opened Types
  import opened Text
  import opened Seqs

  const NotAuthorizedMessage: string := "Пользователь не авторизован"
  const WishlistNotFoundMessage: string := "Список желаний не найден"

  /** The filter state the store starts with. */
  const DefaultFilterState: FilterState := FilterState("", [], NameAsc)

  /** `wishlists.findIndex(list => list.id === id)` */
  function FindIndex(ws: seq<Wishlist>, id: string): (r: int)
    ensures -1 <= r < |ws|
    ensures r == -1 <==> forall j :: 0 <= j < |ws| ==> ws[j].id != id
    ensures 0 <= r ==> ws[r].id == id && forall j :: 0 <= j < r ==> ws[j].id != id
  {
    if ws == [] then -1
    else if ws[0].id == id then 0
    else
      var k := FindIndex(ws[1..], id);
      if k == -1 then -1 else k + 1
  }

  function IdIsNot(id: string): Wishlist -> bool {
    (w: Wishlist) => w.id != id
  }

  function OwnerIs(userId: string): Wishlist -> bool {
    (w: Wishlist) => w.userId == userId
  }

  function ItemIdIsNot(itemId: string): WishlistItem -> bool {
    (item: WishlistItem) => item.id != itemId
  }

  /** The wishlists the store loads for a user: `mockWishlists.filter(list => list.userId === id)`. */
  function OwnedBy(catalog: seq<Wishlist>, userId: string): (r: seq<Wishlist>)
    ensures forall w :: w in r <==> w in catalog && w.userId == userId
  {
    Filter(catalog, OwnerIs(userId))
  }

  /** After a switch to user `userId` the store holds exactly that user's catalog wishlists, each as often
      as in the catalog and in catalog order; a wishlist of any other owner never appears. */
  lemma OwnedByScoping(catalog: seq<Wishlist>, userId: string, w: Wishlist)
    ensures multiset(OwnedBy(catalog, userId))[w] == if w.userId == userId then multiset(catalog)[w] else 0
    ensures w.userId != userId ==> w !in OwnedBy(catalog, userId)
    ensures IsSubsequence(OwnedBy(catalog, userId), catalog)
  {
    FilterCount(catalog, OwnerIs(userId), w);
    FilterIsSubsequence(catalog, OwnerIs(userId));
  }

  /** The record createWishlist appends for the current user. */
  function NewWishlist(user: User, name: string, description: string, isPublic: bool, clock: Clock): (r: Wishlist)
    ensures r.id != "" && r.userId == user.id && r.items == []
    ensures r.name == name && r.description == Some(description) && r.isPublic == isPublic
    ensures r.createdAt == r.updatedAt == clock.iso
  {
    Wishlist("wishlist-" + clock.millis, name, Some(description), isPublic, clock.iso, clock.iso, user.id, [])
  }

  /** `{ ...w, ...data, updatedAt: now }` */
  function OverlayWishlist(w: Wishlist, data: WishlistPatch, now: string): (r: Wishlist)
    ensures r.updatedAt == now
  {
    Wishlist(
      data.id.GetOr(w.id),
      data.name.GetOr(w.name),
      data.description.GetOr(w.description),
      data.isPublic.GetOr(w.isPublic),
      data.createdAt.GetOr(w.createdAt),
      now,
      data.userId.GetOr(w.userId),
      data.items.GetOr(w.items))
  }

  /** A key absent from `data` keeps the old value, a present key wins, and `updatedAt` is always the
      new time; nothing stops `data` from changing `id`, `userId` or `createdAt`. */
  lemma OverlayWishlistFields(w: Wishlist, data: WishlistPatch, now: string)
    ensures OverlayWishlist(w, data, now).updatedAt == now
    ensures data.id.Some? ==> OverlayWishlist(w, data, now).id == data.id.value
    ensures data.id.None? ==> OverlayWishlist(w, data, now).id == w.id
    ensures data.name.Some? ==> OverlayWishlist(w, data, now).name == data.name.value
    ensures data.name.None? ==> OverlayWishlist(w, data, now).name == w.name
    ensures data.description.Some? ==> OverlayWishlist(w, data, now).description == data.description.value
    ensures data.description.None? ==> OverlayWishlist(w, data, now).description == w.description
    ensures data.isPublic.Some? ==> OverlayWishlist(w, data, now).isPublic == data.isPublic.value
    ensures data.isPublic.None? ==> OverlayWishlist(w, data, now).isPublic == w.isPublic
    ensures data.createdAt.Some? ==> OverlayWishlist(w, data, now).createdAt == data.createdAt.value
    ensures data.createdAt.None? ==> OverlayWishlist(w, data, now).createdAt == w.createdAt
    ensures data.userId.Some? ==> OverlayWishlist(w, data, now).userId == data.userId.value
    ensures data.userId.None? ==> OverlayWishlist(w, data, now).userId == w.userId
    ensures data.items.Some? ==> OverlayWishlist(w, data, now).items == data.items.value
    ensures data.items.None? ==> OverlayWishlist(w, data, now).items == w.items
    ensures data == WishlistPatch(None, None, None, None, None, None, None, None) ==> OverlayWishlist(w, data, now) == w.(updatedAt := now)
  {
  }

  /** The item addItemToWishlist stores: its own id and createdAt when they are non-empty, fresh ones
      otherwise, and a new updatedAt. */
  function StampItem(item: WishlistItem, clock: Clock): (r: WishlistItem)
    ensures r.updatedAt == clock.iso
    ensures r.(id := item.id, createdAt := item.createdAt, updatedAt := item.updatedAt) == item
    ensures item.id != "" ==> r.id == item.id
    ensures item.id == "" ==> r.id == "item-" + clock.millis
    ensures item.createdAt != "" ==> r.createdAt == item.createdAt
    ensures item.createdAt == "" ==> r.createdAt == clock.iso
  {
    item.(
      id := if item.id != "" then item.id else "item-" + clock.millis,
      createdAt := if item.createdAt != "" then item.createdAt else clock.iso,
      updatedAt := clock.iso)
  }

  /** A stored item always has a non-empty id, and adding it again (as a recommendation is re-added)
      keeps that id and its createdAt. */
  lemma StampItemIdentity(item: WishlistItem, clock: Clock, later: Clock)
    ensures StampItem(item, clock).id != ""
    ensures item.id != "" ==> StampItem(item, clock).id == item.id
    ensures item.createdAt != "" ==> StampItem(item, clock).createdAt == item.createdAt
    ensures StampItem(StampItem(item, clock), later).id == StampItem(item, clock).id
    ensures clock.iso != "" ==> StampItem(StampItem(item, clock), later).createdAt == StampItem(item, clock).createdAt
  {
    assert ("item-" + clock.millis)[0] == 'i';
  }

  /** `{ ...w, items: [...w.items, newItem], updatedAt }` */
  function AppendItem(w: Wishlist, item: WishlistItem, clock: Clock): (r: Wishlist)
    ensures |r.items| == |w.items| + 1 && r.items[..|w.items|] == w.items
    ensures r.items[|w.items|] == StampItem(item, clock)
    ensures r.(items := w.items, updatedAt := w.updatedAt) == w && r.updatedAt == clock.iso
  {
    w.(items := w.items + [StampItem(item, clock)], updatedAt := clock.iso)
  }

  /** `{ ...w, items: w.items.filter(item => item.id !== itemId), updatedAt }` */
  function RemoveItem(w: Wishlist, itemId: string, clock: Clock): (r: Wishlist)
    ensures forall x :: x in r.items <==> x in w.items && x.id != itemId
    ensures r.(items := w.items, updatedAt := w.updatedAt) == w && r.updatedAt == clock.iso
  {
    w.(items := Filter(w.items, ItemIdIsNot(itemId)), updatedAt := clock.iso)
  }

  /** The remaining items are exactly the old items whose id differs from `itemId`, as often as before and
      in their old order; when no item has that id the items are unchanged. Only `items` and `updatedAt` change. */
  lemma RemoveItemSpec(w: Wishlist, itemId: string, clock: Clock, x: WishlistItem)
    ensures var r := RemoveItem(w, itemId, clock);
      && multiset(r.items)[x] == (if x.id != itemId then multiset(w.items)[x] else 0)
      && IsSubsequence(r.items, w.items)
      && ((forall i :: 0 <= i < |w.items| ==> w.items[i].id != itemId) ==> r.items == w.items)
      && r.(items := w.items, updatedAt := w.updatedAt) == w && r.updatedAt == clock.iso
  {
    FilterCount(w.items, ItemIdIsNot(itemId), x);
    FilterIsSubsequence(w.items, ItemIdIsNot(itemId));
    if forall i :: 0 <= i < |w.items| ==> w.items[i].id != itemId {
      FilterKeepsAll(w.items, ItemIdIsNot(itemId));
    }
  }

  /** `prev.filter(list => list.id !== id)` */
  function WithoutWishlist(ws: seq<Wishlist>, id: string): (r: seq<Wishlist>)
    ensures forall w :: w in r <==> w in ws && w.id != id
  {
    Filter(ws, IdIsNot(id))
  }

  /** Deleting removes every wishlist with that id, keeps every other one as often as before and in
      order, and deleting again changes nothing. */
  lemma DeleteWishlistSpec(ws: seq<Wishlist>, id: string, w: Wishlist)
    ensures multiset(WithoutWishlist(ws, id))[w] == if w.id != id then multiset(ws)[w] else 0
    ensures IsSubsequence(WithoutWishlist(ws, id), ws)
    ensures WithoutWishlist(WithoutWishlist(ws, id), id) == WithoutWishlist(ws, id)
  {
    FilterCount(ws, IdIsNot(id), w);
    FilterIsSubsequence(ws, IdIsNot(id));
    FilterIdempotent(ws, IdIsNot(id));
  }

  // ---------------------------------------------------------------------
  // getFilteredItems

  /** The search rule, for the lower-cased search text: it occurs in the lower-cased name, or in the
      lower-cased description when there is a non-empty one. */
  predicate MatchesSearch(item: WishlistItem, lowerSearch: string)
    ensures lowerSearch == "" ==> MatchesSearch(item, lowerSearch)
  {
    assert OccursAt(ToLower(item.name), "", 0);
    || Contains(ToLower(item.name), lowerSearch)
    || (item.description.Some? && item.description.value != ""
        && Contains(ToLower(item.description.value), lowerSearch))
  }

  /** Both rules of a filter state; an empty search and an empty category list impose nothing. */
  predicate Matches(item: WishlistItem, f: FilterState)
    ensures f.search == "" && |f.categories| == 0 ==> Matches(item, f)
  {
    && (f.search != "" ==> MatchesSearch(item, ToLower(f.search)))
    && (|f.categories| > 0 ==> item.category in f.categories)
  }

  function SearchRule(lowerSearch: string): WishlistItem -> bool {
    (item: WishlistItem) => MatchesSearch(item, lowerSearch)
  }

  function CategoryRule(categories: seq<string>): WishlistItem -> bool {
    (item: WishlistItem) => item.category in categories
  }

  function MatchRule(f: FilterState): WishlistItem -> bool {
    (item: WishlistItem) => Matches(item, f)
  }

  /** The two filtering steps of getFilteredItems, applied to a copy of the catalog. */
  function Narrow(catalog: seq<WishlistItem>, f: FilterState): (r: seq<WishlistItem>)
    ensures |r| <= |catalog|
    ensures forall x :: x in r <==> x in catalog && Matches(x, f)
  {
    var afterSearch := if f.search != "" then Filter(catalog, SearchRule(ToLower(f.search))) else catalog;
    if |f.categories| > 0 then Filter(afterSearch, CategoryRule(f.categories)) else afterSearch
  }

  /** The two steps together keep exactly the catalog items that match both rules, in catalog order. */
  lemma NarrowIsFilter(catalog: seq<WishlistItem>, f: FilterState)
    ensures Narrow(catalog, f) == Filter(catalog, MatchRule(f))
  {
    var search := SearchRule(ToLower(f.search));
    var category := CategoryRule(f.categories);
    if f.search != "" && |f.categories| > 0 {
      FilterFuse(catalog, search, category, MatchRule(f));
    } else if f.search != "" {
      FilterExtensional(catalog, search, MatchRule(f));
    } else if |f.categories| > 0 {
      FilterExtensional(catalog, category, MatchRule(f));
    } else {
      FilterKeepsAll(catalog, MatchRule(f));
    }
  }

  /** `(item.price || 0)` */
  function PriceOf(item: WishlistItem): (p: real)
    ensures item.price.Some? ==> p == item.price.value
    ensures item.price.None? ==> p == 0.0
  {
    if item.price.Some? then item.price.value else 0.0
  }

  /** The comparator getFilteredItems passes to `sort`. */
  function Compare(sortBy: SortOption, localeCompare: (string, string) -> int, a: WishlistItem, b: WishlistItem): (r: real)
    ensures sortBy == PriceAsc ==> (r <= 0.0 <==> PriceOf(a) <= PriceOf(b))
    ensures sortBy == PriceDesc ==> (r <= 0.0 <==> PriceOf(b) <= PriceOf(a))
    ensures sortBy == NameAsc ==> (r <= 0.0 <==> localeCompare(a.name, b.name) <= 0)
    ensures sortBy == NameDesc ==> (r <= 0.0 <==> localeCompare(b.name, a.name) <= 0)
  {
    match sortBy
    case PriceAsc => PriceOf(a) - PriceOf(b)
    case PriceDesc => PriceOf(b) - PriceOf(a)
    case NameAsc => localeCompare(a.name, b.name) as real
    case NameDesc => localeCompare(b.name, a.name) as real
  }

  /** `a` may stay in front of `b` in the sorted output. */
  function Order(sortBy: SortOption, localeCompare: (string, string) -> int): (WishlistItem, WishlistItem) -> bool {
    (a, b) => Compare(sortBy, localeCompare, a, b) <= 0.0
  }

  /** What ECMAScript asks of `localeCompare` as a comparator: the sign flips when the arguments
      are swapped, and "not after" is transitive. */
  ghost predicate ConsistentComparator(localeCompare: (string, string) -> int) {
    && (forall a, b :: localeCompare(a, b) < 0 <==> localeCompare(b, a) > 0)
    && (forall a, b, c :: localeCompare(a, b) <= 0 && localeCompare(b, c) <= 0 ==> localeCompare(a, c) <= 0)
  }

  /** Each of the four sort options orders all items totally and transitively. */
  lemma OrderIsTotalPreorder(sortBy: SortOption, localeCompare: (string, string) -> int)
    requires ConsistentComparator(localeCompare)
    ensures TotalPreorder(Order(sortBy, localeCompare))
  {
    var le := Order(sortBy, localeCompare);
    forall a, b ensures le(a, b) || le(b, a) {
      if sortBy.NameAsc? || sortBy.NameDesc? {
        assert localeCompare(a.name, b.name) <= 0 || localeCompare(b.name, a.name) <= 0;
      }
    }
    forall a, b, c | le(a, b) && le(b, c) ensures le(a, c) {
      match sortBy
      case PriceAsc =>
      case PriceDesc =>
      case NameAsc =>
        assert localeCompare(a.name, b.name) <= 0 && localeCompare(b.name, c.name) <= 0;
      case NameDesc =>
        assert localeCompare(c.name, b.name) <= 0 && localeCompare(b.name, a.name) <= 0;
    }
  }

  /** getFilteredItems on a catalog: filter, then sort a copy stably with the chosen comparator. */
  function FilteredItems(catalog: seq<WishlistItem>, f: FilterState, localeCompare: (string, string) -> int): (r: seq<WishlistItem>)
    ensures multiset(r) == multiset(Narrow(catalog, f))
  {
    InsertionSort(Narrow(catalog, f), Order(f.sortBy, localeCompare))
  }

  /** Every returned item satisfies both rules, and every catalog item that satisfies them is returned
      as many times as the catalog holds it. */
  lemma FilteredItemsMatch(catalog: seq<WishlistItem>, f: FilterState, localeCompare: (string, string) -> int, x: WishlistItem)
    ensures multiset(FilteredItems(catalog, f, localeCompare))[x] == if Matches(x, f) then multiset(catalog)[x] else 0
    ensures x in FilteredItems(catalog, f, localeCompare) <==> x in catalog && Matches(x, f)
  {
    NarrowIsFilter(catalog, f);
    FilterCount(catalog, MatchRule(f), x);
    assert x in FilteredItems(catalog, f, localeCompare) <==> x in multiset(FilteredItems(catalog, f, localeCompare));
  }

  /** The output is ordered by the chosen sort option, and items the comparator ties appear in
      catalog order. */
  lemma FilteredItemsOrdered(catalog: seq<WishlistItem>, f: FilterState, localeCompare: (string, string) -> int, x: WishlistItem)
    requires ConsistentComparator(localeCompare)
    ensures SortedBy(FilteredItems(catalog, f, localeCompare), Order(f.sortBy, localeCompare))
    ensures var tied := TiedWith(x, Order(f.sortBy, localeCompare));
      Filter(FilteredItems(catalog, f, localeCompare), tied) == Filter(Filter(catalog, MatchRule(f)), tied)
  {
    var le := Order(f.sortBy, localeCompare);
    OrderIsTotalPreorder(f.sortBy, localeCompare);
    InsertionSortSorted(Narrow(catalog, f), le);
    InsertionSortStable(Narrow(catalog, f), le, x);
    NarrowIsFilter(catalog, f);
  }

  /** A three-item catalog for the examples below. */
  const RedMug: WishlistItem := WishlistItem("1", "Red Mug", None, "Home", Some(10.0), None, "", "")
  const BlueMug: WishlistItem := WishlistItem("2", "Blue Mug", None, "Home", Some(5.0), None, "", "")
  const Novel: WishlistItem := WishlistItem("3", "Novel", None, "Books", Some(8.0), None, "", "")

  /** "mug" occurs in the lower-cased names of both mugs and not in that of the novel. */
  lemma MugMatchesSamples()
    ensures MatchesSearch(RedMug, "mug") && MatchesSearch(BlueMug, "mug") && !MatchesSearch(Novel, "mug")
  {
    assert OccursAt(ToLower(RedMug.name), "mug", 4);
    assert OccursAt(ToLower(BlueMug.name), "mug", 5);
    assert ToLower(Novel.name) == "novel";
    forall i: nat | i <= 5 ensures !OccursAt("novel", "mug", i) {
      if i + 3 <= 5 {
        assert "novel"[i..i + 3][0] != 'm';
      }
    }
  }

  /** The search "mug" keeps the two mugs, in catalog order. */
  lemma MugSearchNarrows()
    ensures Narrow([RedMug, BlueMug, Novel], FilterState("mug", [], PriceAsc)) == [RedMug, BlueMug]
  {
    var rule := SearchRule(ToLower("mug"));
    assert ToLower("mug") == "mug";
    MugMatchesSamples();
    assert rule(RedMug) && rule(BlueMug) && !rule(Novel);
    assert Filter([Novel], rule) == [] by {
      FilterCons(Novel, [], rule);
      assert [Novel] + [] == [Novel];
    }
    assert Filter([BlueMug, Novel], rule) == [BlueMug] by {
      FilterCons(BlueMug, [Novel], rule);
      assert [BlueMug] + [Novel] == [BlueMug, Novel];
    }
    assert Filter([RedMug, BlueMug, Novel], rule) == [RedMug, BlueMug] by {
      FilterCons(RedMug, [BlueMug, Novel], rule);
      assert [RedMug] + [BlueMug, Novel] == [RedMug, BlueMug, Novel];
    }
  }

  /** Searching "mug" by ascending price: the two mugs, cheaper first. */
  lemma MugSearchExample(localeCompare: (string, string) -> int)
    ensures FilteredItems([RedMug, BlueMug, Novel], FilterState("mug", [], PriceAsc), localeCompare) == [BlueMug, RedMug]
  {
    MugSearchNarrows();
    var le := Order(PriceAsc, localeCompare);
    assert InsertionSort([BlueMug], le) == [BlueMug] by {
      assert [BlueMug][1..] == [];
    }
    assert InsertionSort([RedMug, BlueMug], le) == Insert(RedMug, [BlueMug], le) by {
      assert [RedMug, BlueMug][1..] == [BlueMug];
    }
    assert Insert(RedMug, [BlueMug], le) == [BlueMug, RedMug] by {
      assert !le(RedMug, BlueMug);
      assert [BlueMug][1..] == [];
    }
  }

  /** The category "Books" alone keeps only the novel. */
  lemma BooksCategoryNarrows()
    ensures Narrow([RedMug, BlueMug, Novel], FilterState("", ["Books"], NameAsc)) == [Novel]
  {
    var rule := CategoryRule(["Books"]);
    assert !rule(RedMug) && !rule(BlueMug) && rule(Novel) by {
      assert |"Home"| != |"Books"|;
    }
    assert Narrow([RedMug, BlueMug, Novel], FilterState("", ["Books"], NameAsc)) == Filter([RedMug, BlueMug, Novel], rule);
    assert Filter([Novel], rule) == [Novel] by {
      FilterCons(Novel, [], rule);
      assert [Novel] + [] == [Novel];
    }
    assert Filter([BlueMug, Novel], rule) == [Novel] by {
      FilterCons(BlueMug, [Novel], rule);
      assert [BlueMug] + [Novel] == [BlueMug, Novel];
    }
    assert Filter([RedMug, BlueMug, Novel], rule) == [Novel] by {
      FilterCons(RedMug, [BlueMug, Novel], rule);
      assert [RedMug] + [BlueMug, Novel] == [RedMug, BlueMug, Novel];
    }
  }

  /** Filtering on the category "Books" alone returns only the novel. */
  lemma CategoryExample(localeCompare: (string, string) -> int)
    ensures FilteredItems([RedMug, BlueMug, Novel], FilterState("", ["Books"], NameAsc), localeCompare) == [Novel]
  {
    BooksCategoryNarrows();
    assert InsertionSort([Novel], Order(NameAsc, localeCompare)) == [Novel] by {
      assert [Novel][1..] == [];
    }
  }

  // ---------------------------------------------------------------------
  // The store

  /** The identity an effect keyed on `authState.user?.id` compares. */
  function UserId(user: Option<User>): (r: Option<string>)
    ensures r.Some? <==> user.Some?
    ensures user.Some? ==> r.value == user.value.id
  {
    if user.Some? then Some(user.value.id) else None
  }

  /** The provider's state. `wishlists` is the React state; `rendered` is the value of `wishlists`
      that the functions of the latest render closed over. updateWishlist, addItemToWishlist and
      removeItemFromWishlist compute their result from `rendered` and overwrite the state with it;
      createWishlist and deleteWishlist pass an updater and so work on the latest state. */
  class WishlistStore {
    var wishlists: seq<Wishlist>
    var rendered: seq<Wishlist>
    var recommendedItems: seq<WishlistItem>
    var filterState: FilterState

    constructor ()
      ensures wishlists == [] && rendered == [] && recommendedItems == [] && filterState == DefaultFilterState
    {
      wishlists := [];
      rendered := [];
      recommendedItems := [];
      filterState := DefaultFilterState;
    }

    /** A re-render: the provider's functions now see the current state. */
    method Render()
      modifies this`rendered
      ensures rendered == wishlists
    {
      rendered := wishlists;
    }

    /** The effect that runs when the current user changes. */
    method ReloadForUser(user: Option<User>, mockWishlists: seq<Wishlist>, mockItems: seq<WishlistItem>)
      modifies this`wishlists, this`recommendedItems
      ensures user.Some? ==> wishlists == OwnedBy(mockWishlists, user.value.id) && recommendedItems == mockItems
      ensures user.None? ==> wishlists == [] && recommendedItems == old(recommendedItems)
    {
      if user.Some? {
        wishlists := OwnedBy(mockWishlists, user.value.id);
        recommendedItems := mockItems;
      } else {
        wishlists := [];
      }
    }

    /** The reload effect keyed on the signed-in identity rather than on the user object: it reruns only
        when the id changes, so a profile edit keeps the session's wishlists. */
    method ReloadOnIdentityChange(previous: Option<User>, user: Option<User>, mockWishlists: seq<Wishlist>,
                                  mockItems: seq<WishlistItem>)
      modifies this`wishlists, this`recommendedItems
      ensures UserId(previous) == UserId(user) ==>
        wishlists == old(wishlists) && recommendedItems == old(recommendedItems)
      ensures UserId(previous) != UserId(user) && user.Some? ==>
        wishlists == OwnedBy(mockWishlists, user.value.id) && recommendedItems == mockItems
      ensures UserId(previous) != UserId(user) && user.None? ==>
        wishlists == [] && recommendedItems == old(recommendedItems)
    {
      if UserId(previous) != UserId(user) {
        ReloadForUser(user, mockWishlists, mockItems);
      }
    }

    method SetFilterState(f: FilterState)
      modifies this`filterState
      ensures filterState == f
    {
      filterState := f;
    }

    method CreateWishlist(user: Option<User>, name: string, description: string, isPublic: bool, clock: Clock)
      returns (r: Result<Wishlist>)
      modifies this`wishlists
      ensures user.None? ==> r == Err(NotAuthorizedMessage) && wishlists == old(wishlists)
      ensures user.Some? ==>
        && r == Ok(NewWishlist(user.value, name, description, isPublic, clock))
        && wishlists == old(wishlists) + [r.value]
        && r.value.items == [] && r.value.userId == user.value.id && r.value.id == "wishlist-" + clock.millis
        && r.value.name == name && r.value.description == Some(description) && r.value.isPublic == isPublic
        && r.value.createdAt == clock.iso && r.value.updatedAt == clock.iso
    {
      if user.None? {
        return Err(NotAuthorizedMessage);
      }
      var created := NewWishlist(user.value, name, description, isPublic, clock);
      wishlists := wishlists + [created];
      r := Ok(created);
    }

    method UpdateWishlist(id: string, data: WishlistPatch, clock: Clock) returns (r: Result<Wishlist>)
      modifies this`wishlists
      ensures var i := FindIndex(rendered, id);
        if i == -1 then r == Err(WishlistNotFoundMessage) && wishlists == old(wishlists)
        else
          && r == Ok(OverlayWishlist(rendered[i], data, clock.iso))
          && wishlists == rendered[i := r.value]
          && |wishlists| == |rendered| && wishlists[i] == r.value
          && forall j :: 0 <= j < |rendered| && j != i ==> wishlists[j] == rendered[j]
    {
      var index := FindIndex(rendered, id);
      if index == -1 {
        return Err(WishlistNotFoundMessage);
      }
      var updated := OverlayWishlist(rendered[index], data, clock.iso);
      wishlists := rendered[index := updated];
      r := Ok(updated);
    }

    method DeleteWishlist(id: string)
      modifies this`wishlists
      ensures wishlists == WithoutWishlist(old(wishlists), id)
    {
      wishlists := WithoutWishlist(wishlists, id);
    }

    method AddItemToWishlist(wishlistId: string, item: WishlistItem, clock: Clock) returns (r: Result<Wishlist>)
      modifies this`wishlists
      ensures var i := FindIndex(rendered, wishlistId);
        if i == -1 then r == Err(WishlistNotFoundMessage) && wishlists == old(wishlists)
        else
          && r == Ok(AppendItem(rendered[i], item, clock))
          && wishlists == rendered[i := r.value]
          && |wishlists| == |rendered| && wishlists[i] == r.value
          && forall j :: 0 <= j < |rendered| && j != i ==> wishlists[j] == rendered[j]
    {
      var index := FindIndex(rendered, wishlistId);
      if index == -1 {
        return Err(WishlistNotFoundMessage);
      }
      var updated := AppendItem(rendered[index], item, clock);
      wishlists := rendered[index := updated];
      r := Ok(updated);
    }

    method RemoveItemFromWishlist(wishlistId: string, itemId: string, clock: Clock) returns (r: Result<Wishlist>)
      modifies this`wishlists
      ensures var i := FindIndex(rendered, wishlistId);
        if i == -1 then r == Err(WishlistNotFoundMessage) && wishlists == old(wishlists)
        else
          && r == Ok(RemoveItem(rendered[i], itemId, clock))
          && wishlists == rendered[i := r.value]
          && |wishlists| == |rendered| && wishlists[i] == r.value
          && forall j :: 0 <= j < |rendered| && j != i ==> wishlists[j] == rendered[j]
    {
      var index := FindIndex(rendered, wishlistId);
      if index == -1 {
        return Err(WishlistNotFoundMessage);
      }
      var updated := RemoveItem(rendered[index], itemId, clock);
      wishlists := rendered[index := updated];
      r := Ok(updated);
    }

    /** getFilteredItems: reads the catalog and the filter state and changes neither. */
    function GetFilteredItems(localeCompare: (string, string) -> int): (r: seq<WishlistItem>)
      reads this
      ensures forall x :: x in r <==> x in recommendedItems && Matches(x, filterState)
      ensures r == FilteredItems(recommendedItems, filterState, localeCompare)
    {
      var r := FilteredItems(recommendedItems, filterState, localeCompare);
      assert forall x :: x in r <==> x in recommendedItems && Matches(x, filterState) by {
        forall x ensures x in r <==> x in recommendedItems && Matches(x, filterState) {
          FilteredItemsMatch(recommendedItems, filterState, localeCompare, x);
        }
      }
      r
    }
  }

  // ---------------------------------------------------------------------
  // Store sessions

  /** A session on a fresh store: create a wishlist, re-render, add a book, re-render, read the
      wishlist back, remove the book. The read shows exactly the book, and the removal leaves the
      wishlist empty. */
  method CreateAddRemove(user: User, c1: Clock, c2: Clock, c3: Clock) returns (read: seq<WishlistItem>, left: seq<WishlistItem>)
    ensures |read| == 1 && read[0].name == "Book" && read[0].category == "Books" && read[0].id == "item-" + c2.millis
    ensures left == []
  {
    var store := new WishlistStore();
    var created := store.CreateWishlist(Some(user), "A", "", true, c1);
    store.Render();
    var book := WishlistItem("", "Book", None, "Books", None, None, "", "");
    var added := store.AddItemToWishlist(created.value.id, book, c2);
    assert added.Ok?;
    store.Render();
    read := store.wishlists[0].items;
    var removed := store.RemoveItemFromWishlist(created.value.id, read[0].id, c3);
    assert removed.Ok?;
    left := store.wishlists[0].items;
    assert left == Filter([read[0]], ItemIdIsNot(read[0].id));
    assert [read[0]][1..] == [];
  }

  /** Without the render between them, the add still sees the wishlists of the render before the
      create, so it cannot find the new wishlist. */
  method AddBeforeRenderFails(user: User, c1: Clock, c2: Clock) returns (added: Result<Wishlist>)
    ensures added == Err(WishlistNotFoundMessage)
  {
    var store := new WishlistStore();
    var created := store.CreateWishlist(Some(user), "A", "", true, c1);
    var book := WishlistItem("", "Book", None, "Books", None, None, "", "");
    added := store.AddItemToWishlist(created.value.id, book, c2);
  }
}
