/** The page logic of src/pages/wishlist/WishlistDetail.tsx: which wishlist is shown, the items the
    page builds from the item form, and the handlers that call the wishlist store. */
module WishlistDetail {
  import opened Types
  import opened Text
  import opened Seqs
  import opened WishlistContext
  import ItemForm
  import WishlistForm

  /** The route effect: with a (non-empty) route id the shown wishlist is the first one with that id,
      or none; without one the shown wishlist stays as it was. */
  function ShownWishlist(routeId: Option<string>, wishlists: seq<Wishlist>, current: Option<Wishlist>): (r: Option<Wishlist>)
    ensures !(routeId.Some? && routeId.value != "") ==> r == current
    ensures routeId.Some? && routeId.value != "" ==>
      && (r.None? <==> forall i :: 0 <= i < |wishlists| ==> wishlists[i].id != routeId.value)
      && (r.Some? ==> exists i :: 0 <= i < |wishlists| && wishlists[i] == r.value && r.value.id == routeId.value
                        && forall j :: 0 <= j < i ==> wishlists[j].id != routeId.value)
  {
    if routeId.Some? && routeId.value != "" then
      var i := FindIndex(wishlists, routeId.value);
      if i == -1 then None else Some(wishlists[i])
    else current
  }

  /** The wishlist form's submission as the `Partial<Wishlist>` handed to updateWishlist. */
  function UpdatePatch(data: WishlistForm.WishlistFormData): (r: WishlistPatch)
    ensures r.name == Some(data.name) && r.description == Some(Some(data.description)) && r.isPublic == Some(data.isPublic)
    ensures r.id.None? && r.userId.None? && r.createdAt.None? && r.items.None?
  {
    WishlistPatch(None, Some(data.name), Some(Some(data.description)), Some(data.isPublic), None, None, None, None)
  }

  /** Saving the edit form unchanged changes a wishlist only in its timestamp, except that an absent
      description is stored as the empty string. */
  lemma UnchangedEditKeepsWishlist(w: Wishlist, now: string)
    ensures OverlayWishlist(w, UpdatePatch(WishlistForm.InitialFormData(WishlistForm.WishlistAsPatch(w))), now)
            == w.(description := Some(w.description.GetOr("")), updatedAt := now)
  {
    WishlistForm.EditFormShowsWishlist(w);
  }

  /** The item handleAddItem builds from the item form: a fresh id, both timestamps set to now, name
      and category defaulting to the empty string, and the optional fields copied as they are. */
  function NewManualItem(data: ItemPatch, clock: Clock): (r: WishlistItem)
    ensures r.id == "item-" + clock.millis && r.createdAt == clock.iso && r.updatedAt == clock.iso
    ensures data.name.Some? ==> r.name == data.name.value
    ensures data.name.None? ==> r.name == ""
    ensures data.category.Some? ==> r.category == data.category.value
    ensures data.category.None? ==> r.category == ""
    ensures r.description == Flatten(data.description) && r.price == Flatten(data.price)
    ensures r.imageUrl == Flatten(data.imageUrl)
  {
    WishlistItem("item-" + clock.millis, OrElse(data.name, ""), Flatten(data.description),
      OrElse(data.category, ""), Flatten(data.price), Flatten(data.imageUrl), clock.iso, clock.iso)
  }

  /** An item built from an accepted form keeps what validate checked, and the store keeps its id and
      its creation time when it adds it. */
  lemma AcceptedFormMakesValidItem(form: ItemForm.ItemFormData, clock: Clock, later: Clock)
    requires ItemForm.Acceptable(form)
    ensures var item := NewManualItem(ItemForm.AsPatch(form), clock);
      && !IsBlank(item.name) && item.category != ""
      && (item.price.None? || item.price.value >= 0.0)
      && (item.imageUrl == Some("") || IsHttpUrl(item.imageUrl.value))
      && StampItem(item, later).id == item.id
      && (clock.iso != "" ==> StampItem(item, later).createdAt == item.createdAt)
  {
    var item := NewManualItem(ItemForm.AsPatch(form), clock);
    StampItemIdentity(item, later, later);
    assert item.name == form.name;
  }

  /** `{ ...selectedItem, ...data, updatedAt: now }`. */
  function MergeEdit(selected: WishlistItem, data: ItemPatch, now: string): (r: WishlistItem)
    ensures r.updatedAt == now
    ensures data.id.Some? ==> r.id == data.id.value
    ensures data.id.None? ==> r.id == selected.id
    ensures data.name.Some? ==> r.name == data.name.value
    ensures data.name.None? ==> r.name == selected.name
    ensures data.description.Some? ==> r.description == data.description.value
    ensures data.description.None? ==> r.description == selected.description
    ensures data.category.Some? ==> r.category == data.category.value
    ensures data.category.None? ==> r.category == selected.category
    ensures data.price.Some? ==> r.price == data.price.value
    ensures data.price.None? ==> r.price == selected.price
    ensures data.imageUrl.Some? ==> r.imageUrl == data.imageUrl.value
    ensures data.imageUrl.None? ==> r.imageUrl == selected.imageUrl
    ensures data.createdAt.Some? ==> r.createdAt == data.createdAt.value
    ensures data.createdAt.None? ==> r.createdAt == selected.createdAt
    ensures data == ItemForm.EmptyItemPatch ==> r == selected.(updatedAt := now)
  {
    WishlistItem(
      data.id.GetOr(selected.id),
      data.name.GetOr(selected.name),
      data.description.GetOr(selected.description),
      data.category.GetOr(selected.category),
      data.price.GetOr(selected.price),
      data.imageUrl.GetOr(selected.imageUrl),
      data.createdAt.GetOr(selected.createdAt),
      now)
  }

  /** The item form never carries an id or a creation time, so an edited item keeps both. */
  lemma EditKeepsIdentity(selected: WishlistItem, form: ItemForm.ItemFormData, now: string)
    ensures MergeEdit(selected, ItemForm.AsPatch(form), now).id == selected.id
    ensures MergeEdit(selected, ItemForm.AsPatch(form), now).createdAt == selected.createdAt
  {
  }

  /** Saving the item edit form unchanged changes an item only in its timestamp, except that absent
      description and image URL are stored as empty strings. */
  lemma UnchangedEditKeepsItem(item: WishlistItem, categories: seq<string>, now: string)
    requires item.category != ""
    ensures MergeEdit(item, ItemForm.AsPatch(ItemForm.InitialFormData(ItemForm.ItemAsPatch(item), categories)), now)
            == item.(description := Some(item.description.GetOr("")), imageUrl := Some(item.imageUrl.GetOr("")), updatedAt := now)
  {
    ItemForm.EditFormShowsItem(item, categories);
  }

  function ItemIdIs(itemId: string): WishlistItem -> bool {
    (item: WishlistItem) => item.id == itemId
  }

  /** handleUpdateItem as written: the remove and the add both start from the wishlists of the same
      render, so the add undoes the remove. The item being edited stays, and its edited copy, with the
      same id, is appended: the wishlist holds one more item with that id than before. */
  lemma StaleEditDuplicates(w: Wishlist, selected: WishlistItem, data: ItemPatch, clock: Clock)
    requires selected in w.items && selected.id != "" && data.id.None?
    ensures var r := AppendItem(w, MergeEdit(selected, data, clock.iso), clock);
      && selected in r.items
      && |Filter(r.items, ItemIdIs(selected.id))| == |Filter(w.items, ItemIdIs(selected.id))| + 1
      && |Filter(r.items, ItemIdIs(selected.id))| >= 2
  {
    var edited := StampItem(MergeEdit(selected, data, clock.iso), clock);
    var r := AppendItem(w, MergeEdit(selected, data, clock.iso), clock);
    assert r.items == w.items + [edited];
    FilterAppend(w.items, [edited], ItemIdIs(selected.id));
    assert Filter([edited], ItemIdIs(selected.id)) == [edited] by {
      assert [edited][1..] == [];
    }
    assert selected in Filter(w.items, ItemIdIs(selected.id));
  }

  /** The edit as intended: the add works on the result of the remove. */
  function ReplaceItem(w: Wishlist, selected: WishlistItem, data: ItemPatch, clock: Clock): (r: Wishlist)
    ensures r.id == w.id && r.userId == w.userId && r.updatedAt == clock.iso
    ensures |r.items| > 0 && r.items[|r.items| - 1] == StampItem(MergeEdit(selected, data, clock.iso), clock)
  {
    AppendItem(RemoveItem(w, selected.id, clock), MergeEdit(selected, data, clock.iso), clock)
  }

  /** After the intended edit exactly one item has the edited id, the edited copy, at the end; every
      other item is kept, in order. */
  lemma ReplaceItemSpec(w: Wishlist, selected: WishlistItem, data: ItemPatch, clock: Clock)
    requires selected.id != "" && data.id.None?
    ensures var r := ReplaceItem(w, selected, data, clock);
      && Filter(r.items, ItemIdIs(selected.id)) == [StampItem(MergeEdit(selected, data, clock.iso), clock)]
      && r.items[..|r.items| - 1] == Filter(w.items, ItemIdIsNot(selected.id))
  {
    var edited := StampItem(MergeEdit(selected, data, clock.iso), clock);
    var kept := Filter(w.items, ItemIdIsNot(selected.id));
    var r := ReplaceItem(w, selected, data, clock);
    assert r.items == kept + [edited];
    FilterAppend(kept, [edited], ItemIdIs(selected.id));
    FilterDropsAll(kept, ItemIdIs(selected.id));
    assert Filter([edited], ItemIdIs(selected.id)) == [edited] by {
      assert [edited][1..] == [];
    }
  }

  /** The page's own state, beside the store it calls: the shown wishlist (the copy the route effect
      took) and the item chosen for editing or deletion. A handler that finds no wishlist shown, or
      no item chosen where it needs one, does nothing; a store call that fails is logged and leaves the
      page as it was. */
  class DetailPage {
    var wishlist: Option<Wishlist>
    var selectedItem: Option<WishlistItem>
    const store: WishlistStore

    constructor (store: WishlistStore)
      ensures this.store == store && wishlist == None && selectedItem == None
    {
      this.store := store;
      wishlist := None;
      selectedItem := None;
    }

    /** An effect runs after its render is committed, so it reads the latest `store.wishlists`. */
    method RunRouteEffect(routeId: Option<string>)
      modifies this`wishlist
      ensures wishlist == ShownWishlist(routeId, store.wishlists, old(wishlist))
    {
      wishlist := ShownWishlist(routeId, store.wishlists, wishlist);
    }

    /** openEditItemModal and openDeleteItemModal: the item the next handler works on. */
    method SelectItem(item: WishlistItem)
      modifies this`selectedItem
      ensures selectedItem == Some(item)
    {
      selectedItem := Some(item);
    }

    /** handleUpdate: the wishlist form's fields are written over the shown wishlist. */
    method HandleUpdate(data: WishlistForm.WishlistFormData, clock: Clock)
      modifies store`wishlists
      ensures wishlist.None? ==> store.wishlists == old(store.wishlists)
      ensures wishlist.Some? ==>
        var i := FindIndex(store.rendered, wishlist.value.id);
        && (i == -1 ==> store.wishlists == old(store.wishlists))
        && (i != -1 ==> store.wishlists == store.rendered[i := OverlayWishlist(store.rendered[i], UpdatePatch(data), clock.iso)])
    {
      if wishlist.None? {
        return;
      }
      var _ := store.UpdateWishlist(wishlist.value.id, UpdatePatch(data), clock);
    }

    /** handleDelete: every wishlist with the shown wishlist's id is removed. */
    method HandleDelete()
      modifies store`wishlists
      ensures wishlist.None? ==> store.wishlists == old(store.wishlists)
      ensures wishlist.Some? ==> store.wishlists == WithoutWishlist(old(store.wishlists), wishlist.value.id)
    {
      if wishlist.None? {
        return;
      }
      store.DeleteWishlist(wishlist.value.id);
    }

    /** handleAddItem: the item built from the form is appended to the shown wishlist. */
    method HandleAddItem(data: ItemPatch, clock: Clock)
      modifies store`wishlists
      ensures wishlist.None? ==> store.wishlists == old(store.wishlists)
      ensures wishlist.Some? ==>
        var i := FindIndex(store.rendered, wishlist.value.id);
        && (i == -1 ==> store.wishlists == old(store.wishlists))
        && (i != -1 ==> store.wishlists == store.rendered[i := AppendItem(store.rendered[i], NewManualItem(data, clock), clock)])
    {
      if wishlist.None? {
        return;
      }
      var newItem := NewManualItem(data, clock);
      var _ := store.AddItemToWishlist(wishlist.value.id, newItem, clock);
    }

    /** handleUpdateItem: removeItemFromWishlist, then addItemToWishlist with the merged item, both on
        the wishlists of the render the handler belongs to. The result is the add alone: the old item
        stays and the edited copy is appended (see StaleEditDuplicates). */
    method HandleUpdateItem(data: ItemPatch, clock: Clock)
      modifies this`selectedItem, store`wishlists
      ensures wishlist.None? || old(selectedItem).None? ==>
        store.wishlists == old(store.wishlists) && selectedItem == old(selectedItem)
      ensures wishlist.Some? && old(selectedItem).Some? ==>
        var i := FindIndex(store.rendered, wishlist.value.id);
        && (i == -1 ==> store.wishlists == old(store.wishlists) && selectedItem == old(selectedItem))
        && (i != -1 ==>
              && store.wishlists == store.rendered[i := AppendItem(store.rendered[i], MergeEdit(old(selectedItem).value, data, clock.iso), clock)]
              && selectedItem == None)
    {
      if wishlist.None? || selectedItem.None? {
        return;
      }
      var removed := store.RemoveItemFromWishlist(wishlist.value.id, selectedItem.value.id, clock);
      if removed.Err? {
        return;
      }
      var updatedItem := MergeEdit(selectedItem.value, data, clock.iso);
      var added := store.AddItemToWishlist(wishlist.value.id, updatedItem, clock);
      if added.Err? {
        return;
      }
      selectedItem := None;
    }

    /** handleDeleteItem: every item with the chosen item's id leaves the shown wishlist. */
    method HandleDeleteItem(clock: Clock)
      modifies this`selectedItem, store`wishlists
      ensures wishlist.None? || old(selectedItem).None? ==>
        store.wishlists == old(store.wishlists) && selectedItem == old(selectedItem)
      ensures wishlist.Some? && old(selectedItem).Some? ==>
        var i := FindIndex(store.rendered, wishlist.value.id);
        && (i == -1 ==> store.wishlists == old(store.wishlists) && selectedItem == old(selectedItem))
        && (i != -1 ==>
              && store.wishlists == store.rendered[i := RemoveItem(store.rendered[i], old(selectedItem).value.id, clock)]
              && selectedItem == None)
    {
      if wishlist.None? || selectedItem.None? {
        return;
      }
      var removed := store.RemoveItemFromWishlist(wishlist.value.id, selectedItem.value.id, clock);
      if removed.Err? {
        return;
      }
      selectedItem := None;
    }
  }
}
