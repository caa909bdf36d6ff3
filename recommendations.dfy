/** The page logic of src/pages/wishlist/Recommendations.tsx: the filter-state handlers, the
    preselection of a target wishlist from the query string, and the add-to-wishlist dispatch. */
module Recommendations {
  import opened Types
  import opened Seqs
  import opened WishlistContext

  /** handleCategoryToggle: a category already chosen is dropped (every occurrence of it), any other
      is appended at the end. */
  function ToggleCategory(categories: seq<string>, category: string): (r: seq<string>)
    ensures category !in categories ==> r == categories + [category]
    ensures category in categories ==> category !in r && IsSubsequence(r, categories)
    ensures category in categories ==> forall c :: c != category ==> multiset(r)[c] == multiset(categories)[c]
  {
    if category in categories then Without(categories, category) else categories + [category]
  }

  /** Toggling a category that was not chosen, and then toggling it again, restores the list. */
  lemma ToggleTwiceRestores(categories: seq<string>, category: string)
    requires category !in categories
    ensures ToggleCategory(ToggleCategory(categories, category), category) == categories
  {
    WithoutAppended(categories, category);
  }

  /** The chosen categories never hold a duplicate when they start without one: the toggle only ever
      appends a category that is absent. */
  lemma ToggleKeepsDistinct(categories: seq<string>, category: string)
    requires forall i, j :: 0 <= i < j < |categories| ==> categories[i] != categories[j]
    ensures var r := ToggleCategory(categories, category);
      forall i, j :: 0 <= i < j < |r| ==> r[i] != r[j]
  {
    var r := ToggleCategory(categories, category);
    if category in categories {
      forall i, j | 0 <= i < j < |r| ensures r[i] != r[j] {
        if r[i] == r[j] {
          var c := r[i];
          assert c != category;
          assert multiset(r)[c] >= 2 by {
            assert r == r[..i] + [r[i]] + r[i + 1..j] + [r[j]] + r[j + 1..];
          }
          DistinctCount(categories, c);
        }
      }
    }
  }

  /** In a sequence without duplicates each value occurs at most once. */
  lemma {:induction false} DistinctCount(s: seq<string>, c: string)
    requires forall i, j :: 0 <= i < j < |s| ==> s[i] != s[j]
    ensures multiset(s)[c] <= 1
  {
    if s != [] {
      DistinctCount(s[1..], c);
      assert s == [s[0]] + s[1..];
      if s[0] == c {
        assert c !in s[1..];
      }
    }
  }

  /** handleSearch: only the search text changes. */
  function SetSearch(f: FilterState, value: string): (r: FilterState)
    ensures r.search == value && r.categories == f.categories && r.sortBy == f.sortBy
  {
    f.(search := value)
  }

  /** handleSortChange: only the sort order changes. */
  function SetSortBy(f: FilterState, sortBy: SortOption): (r: FilterState)
    ensures r.sortBy == sortBy && r.search == f.search && r.categories == f.categories
  {
    f.(sortBy := sortBy)
  }

  /** handleCategoryToggle on the whole filter state: only the categories change. */
  function ToggleFilterCategory(f: FilterState, category: string): (r: FilterState)
    ensures r.search == f.search && r.sortBy == f.sortBy
    ensures (category in r.categories) != (category in f.categories)
  {
    f.(categories := ToggleCategory(f.categories, category))
  }

  /** handleResetFilters: the filter state the store starts with. */
  function ResetFilters(): (r: FilterState)
    ensures r == DefaultFilterState
    ensures r.search == "" && r.categories == [] && r.sortBy == NameAsc
  {
    FilterState("", [], NameAsc)
  }

  /** After a reset every catalog item is shown, as often as in the catalog. */
  lemma ResetShowsWholeCatalog(catalog: seq<WishlistItem>, localeCompare: (string, string) -> int)
    ensures multiset(FilteredItems(catalog, ResetFilters(), localeCompare)) == multiset(catalog)
  {
    var f := ResetFilters();
    NarrowIsFilter(catalog, f);
    FilterKeepsAll(catalog, MatchRule(f));
  }

  /** JavaScript truthiness of a string that may be null. */
  predicate Truthy(o: Option<string>) {
    o.Some? && o.value != ""
  }

  /** The preselection effect: a non-empty `wishlistId` query parameter becomes the selection when some
      wishlist has that id; otherwise the selection stays as it was. */
  function Preselect(current: Option<string>, query: Option<string>, wishlists: seq<Wishlist>): (r: Option<string>)
    ensures r != current ==> r == query && Truthy(query) && exists i :: 0 <= i < |wishlists| && wishlists[i].id == r.value
    ensures Truthy(query) && (exists i :: 0 <= i < |wishlists| && wishlists[i].id == query.value) ==> r == query
  {
    if Truthy(query) && FindIndex(wishlists, query.value) != -1 then query else current
  }

  /** The page's own state, beside the store it calls. */
  class RecommendationsPage {
    var selectedWishlistId: Option<string>
    var selectedItem: Option<WishlistItem>
    var isAddModalOpen: bool
    const store: WishlistStore

    constructor (store: WishlistStore)
      ensures this.store == store
      ensures selectedWishlistId == None && selectedItem == None && !isAddModalOpen
    {
      this.store := store;
      selectedWishlistId := None;
      selectedItem := None;
      isAddModalOpen := false;
    }

    /** An effect runs after its render is committed, so it reads the latest `store.wishlists`. */
    method RunPreselection(query: Option<string>)
      modifies this`selectedWishlistId
      ensures selectedWishlistId == Preselect(old(selectedWishlistId), query, store.wishlists)
    {
      selectedWishlistId := Preselect(selectedWishlistId, query, store.wishlists);
    }

    /** handleConfirmAdd: the item goes into the chosen wishlist; when no wishlist was preselected a
        successful add also closes the chooser and forgets the item. A failed add changes nothing. */
    method HandleConfirmAdd(item: WishlistItem, wishlistId: string, clock: Clock) returns (r: Result<Wishlist>)
      modifies this`selectedItem, this`isAddModalOpen, store`wishlists
      ensures var i := FindIndex(store.rendered, wishlistId);
        if i == -1 then r == Err(WishlistNotFoundMessage) && store.wishlists == old(store.wishlists)
        else r == Ok(AppendItem(store.rendered[i], item, clock)) && store.wishlists == store.rendered[i := r.value]
      ensures r.Ok? && !Truthy(selectedWishlistId) ==> selectedItem == None && !isAddModalOpen
      ensures r.Err? || Truthy(selectedWishlistId) ==>
        selectedItem == old(selectedItem) && isAddModalOpen == old(isAddModalOpen)
    {
      r := store.AddItemToWishlist(wishlistId, item, clock);
      if r.Ok? && !Truthy(selectedWishlistId) {
        isAddModalOpen := false;
        selectedItem := None;
      }
    }

    /** handleAddItem: with a preselected wishlist the item is added to it at once; otherwise it is
        remembered and the chooser opens, and the store is untouched. */
    method HandleAddItem(item: WishlistItem, clock: Clock)
      modifies this`selectedItem, this`isAddModalOpen, store`wishlists
      ensures Truthy(selectedWishlistId) ==>
        var i := FindIndex(store.rendered, selectedWishlistId.value);
        && (i == -1 ==> store.wishlists == old(store.wishlists))
        && (i != -1 ==> store.wishlists == store.rendered[i := AppendItem(store.rendered[i], item, clock)])
        && selectedItem == old(selectedItem) && isAddModalOpen == old(isAddModalOpen)
      ensures !Truthy(selectedWishlistId) ==>
        store.wishlists == old(store.wishlists) && selectedItem == Some(item) && isAddModalOpen
    {
      if Truthy(selectedWishlistId) {
        var _ := HandleConfirmAdd(item, selectedWishlistId.value, clock);
      } else {
        selectedItem := Some(item);
        isAddModalOpen := true;
      }
    }
  }
}
