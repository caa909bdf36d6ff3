# wiishy: a verified model of the wishlist and identity stores

wiishy is a React single-page application for keeping wishlists and finding gift ideas. This
project models its core in Dafny and proves properties of that model. It has these parts:

- the wishlist store (`WishlistContext`): the current user's wishlists and their items, the
  recommendation catalog, the filter state, and the filtered, sorted view of the catalog;
- the identity store (`AuthContext`): the authentication state, mirrored to the `user` key of local
  storage, with register, login, logout, profile update and the startup load, all checked against a
  static user catalog;
- the recommendations page (`Recommendations`): the filter-state handlers, the preselection of a
  target wishlist from the query string, and the add-to-wishlist dispatch;
- the wishlist page (`WishlistDetail`): which wishlist is shown, the items it builds from the item
  form, and the handlers that call the store;
- the five forms (`ItemForm`, `WishlistForm`, `RegisterForm`, `LoginForm`, `ProfileForm`): initial
  data, change handlers, validation and the submission gate;
- the session (`Session`): both stores side by side, where a profile edit reruns the wishlist
  store's reload.

Three shared modules support them:

- `Types` holds the records and the `Partial<T>` patches. A patch has an `Option` per key. An
  optional field has `Option<Option<_>>`, because its key may be present and hold `undefined`.
- `Text` holds JavaScript's `trim`, `toLowerCase` and `includes`, and the two regular expressions
  of the forms, each written as the set of strings it accepts.
- `Seqs` holds `filter` and the stable `sort`, with their lemmas: the result is a subsequence, each
  element is kept as often as before, the sort output is ordered, and ties keep their order.

How the model is shaped:

- **Classes for state.** A store or page that overwrites its state is a class with `modifies`
  clauses. Its methods state the whole new state. A store call that the source lets throw returns a
  value that carries the thrown message: a `Result` with `Err` for the wishlist store, an
  `Outcome` with `Fail` for the identity store. `DeleteWishlist` and `Logout` cannot fail and
  return nothing.
- **Stale closures.** The class `WishlistStore` keeps two sequences. `wishlists` is the state.
  `rendered` is the copy that the current render's functions captured.
  - updateWishlist, addItemToWishlist and removeItemFromWishlist read `rendered` and replace the
    state with an edited copy of it.
  - createWishlist and deleteWishlist use functional updates on the latest state.
  - `Render` brings `rendered` up to date.
- **Pure functions.** Record construction, spreads, the filter handlers and getFilteredItems are
  functions. A lemma relates each to an independent statement of what it promises.
- **Forms.** A form's `Validate` is a method that builds its error record step by step. Its
  contract gives every message. It also says the form is valid exactly when no message is set.
  For the item, register, login and profile forms that is exactly when an independent `Acceptable`
  predicate holds; for the wishlist form it is exactly when the name is not blank.

Register and login look names up only in the static user catalog. Registering the same new name
twice therefore succeeds both times, and a freshly registered name cannot log in
(`AuthContext.RegisterTwiceThenLogin`).

## Model

| member | source | states |
|---|---|---|
| `Types.OverlayUser` | src/contexts/AuthContext.tsx:130 | `{ ...user, ...patch }`: for each of the seven keys, a key present in the patch wins and an absent key keeps the user's value; an empty patch leaves the user as it was |
| `Text.Trim` | src/components/auth/RegisterForm.tsx:48 | the result is a slice of the input with only white space cut from both ends; it is empty exactly when the input is blank, and it neither starts nor ends with white space |
| `Text.ToLower` | src/contexts/WishlistContext.tsx:136 | same length, each character lower-cased on its own |
| `Text.IsEmail` | src/components/auth/RegisterForm.tsx:59 | the e-mail pattern as the set of strings it accepts (a non-empty run of `[^\s@]`, an `@`, a non-empty run, a `.`, a non-empty run); an accepted address has at least five characters and starts and ends with a character of the class |
| `Text.IsHttpUrl` | src/components/wishlist/ItemForm.tsx:93 | the image-URL pattern as the set of strings it accepts (`http://` or `https://` followed by a character other than a line terminator); an accepted URL has at least eight characters and starts with `http` |
| `Text.EmailShape` | src/components/auth/RegisterForm.tsx:59 | an address the e-mail pattern accepts holds exactly one `@` and no white space |
| `Text.EmailIsNotBlank` | src/components/auth/RegisterForm.tsx:56-62 | an address the pattern accepts is never blank, so the "required" and "invalid" branches never overlap |
| `Seqs.Filter` | src/contexts/WishlistContext.tsx:84 | `filter`: no longer than the input, every element passes, and an element is in the result exactly when it is in the input and passes |
| `Seqs.FilterIsSubsequence` | src/contexts/WishlistContext.tsx:84 | filtering keeps the surviving elements in their original order |
| `Seqs.FilterCount` | src/contexts/WishlistContext.tsx:137-144 | an element that passes is kept as often as it occurs; one that fails is dropped |
| `Seqs.FilterAppend` | src/contexts/WishlistContext.tsx:137-144 | filtering distributes over concatenation |
| `Seqs.FilterKeepsAll` | src/contexts/WishlistContext.tsx:121 | a filter every element passes returns its input |
| `Seqs.FilterDropsAll` | src/contexts/WishlistContext.tsx:121 | a filter no element passes returns the empty sequence |
| `Seqs.FilterExtensional` | src/contexts/WishlistContext.tsx:135-145 | filters by predicates that agree everywhere agree |
| `Seqs.FilterFuse` | src/contexts/WishlistContext.tsx:135-145 | filtering by one predicate and then another is filtering once by both |
| `Seqs.FilterIdempotent` | src/contexts/WishlistContext.tsx:84 | filtering twice by the same predicate is filtering once |
| `Seqs.Without` | src/pages/wishlist/Recommendations.tsx:58 | `filter(c => c !== x)`: `x` is gone, every other value is kept as often as before and in order, and a sequence without `x` is unchanged |
| `Seqs.WithoutAppended` | src/pages/wishlist/Recommendations.tsx:57-59 | dropping a value just appended to a sequence without it gives the sequence back |
| `Seqs.Insert` | src/contexts/WishlistContext.tsx:147-160 | insertion adds exactly one element: the multiset grows by it |
| `Seqs.InsertionSort` | src/contexts/WishlistContext.tsx:147-160 | the sort output is a permutation of its input |
| `Seqs.InsertSorted` | src/contexts/WishlistContext.tsx:147-160 | inserting into an ordered sequence keeps it ordered |
| `Seqs.InsertionSortSorted` | src/contexts/WishlistContext.tsx:147-160 | the sort output is ordered by the comparator |
| `Seqs.InsertTies` | src/contexts/WishlistContext.tsx:147-160 | an inserted element lands in front of every element tied with it |
| `Seqs.InsertionSortStable` | src/contexts/WishlistContext.tsx:147-160 | the sort is stable: the elements tied with any value keep their relative order |
| `WishlistContext.OwnedBy` | src/contexts/WishlistContext.tsx:35-37 | a wishlist is kept exactly when it is in the catalog and belongs to the user |
| `WishlistContext.NewWishlist` | src/contexts/WishlistContext.tsx:49-58 | the new wishlist has a non-empty id, the user as owner, no items, the given name, description and visibility, and both timestamps now |
| `WishlistContext.OverlayWishlist` | src/contexts/WishlistContext.tsx:70-74 | `{ ...w, ...data, updatedAt }`: `updatedAt` is always the new time (the per-key rule is `OverlayWishlistFields`) |
| `WishlistContext.StampItem` | src/contexts/WishlistContext.tsx:93-98 | the stored item differs from the given one only in id, createdAt and updatedAt; a non-empty id or createdAt is kept, an empty id becomes `item-` followed by the millisecond clock, an empty createdAt becomes the ISO time now, and updatedAt is now |
| `WishlistContext.RemoveItem` | src/contexts/WishlistContext.tsx:119-123 | an item stays exactly when it was there and has another id; only `items` and `updatedAt` change, and `updatedAt` is now |
| `WishlistContext.WithoutWishlist` | src/contexts/WishlistContext.tsx:84 | a wishlist stays exactly when it was there and has another id |
| `WishlistContext.MatchesSearch` | src/contexts/WishlistContext.tsx:137-140 | the lower-cased search occurs in the lower-cased name, or in a non-empty lower-cased description; as with `includes("")`, an empty search matches every item |
| `WishlistContext.Matches` | src/contexts/WishlistContext.tsx:135-145 | the item must match a non-empty search and have one of a non-empty list of categories; an empty search and an empty category list let every item through |
| `WishlistContext.Narrow` | src/contexts/WishlistContext.tsx:133-145 | no longer than the catalog; an item is kept exactly when it is in the catalog and matches the filter state |
| `WishlistContext.PriceOf` | src/contexts/WishlistContext.tsx:150 | `price \|\| 0`: the price when present, otherwise 0 |
| `WishlistContext.Compare` | src/contexts/WishlistContext.tsx:147-160 | `a` may precede `b` exactly when its price is not higher (price ascending), not lower (price descending), or `localeCompare` puts its name first or level (name ascending, and reversed for descending) |
| `WishlistContext.FilteredItems` | src/contexts/WishlistContext.tsx:132-163 | getFilteredItems on a catalog: the sort only reorders the narrowed catalog, as a multiset it is unchanged |
| `WishlistContext.FindIndex` | src/contexts/WishlistContext.tsx:65-68 | `findIndex`: -1 exactly when no wishlist has the id, otherwise the first index that has it |
| `WishlistContext.OwnedByScoping` | src/contexts/WishlistContext.tsx:33-42 | after a user switch the store holds exactly that user's catalog wishlists, each as often as in the catalog and in catalog order, and none of another owner |
| `WishlistContext.OverlayWishlistFields` | src/contexts/WishlistContext.tsx:70-74 | for each key other than `updatedAt` (id, name, description, isPublic, createdAt, userId, items) a key present in the patch wins and an absent key keeps the old value; `updatedAt` is always the new time, so nothing stops the patch from changing `id`, `userId` or `createdAt`; an empty patch changes only `updatedAt` |
| `WishlistContext.StampItemIdentity` | src/contexts/WishlistContext.tsx:93-98 | a stored item always has a non-empty id; a non-empty id and createdAt are kept; adding a stored item again keeps its id and createdAt |
| `WishlistContext.AppendItem` | src/contexts/WishlistContext.tsx:100-104 | one more item, the new one last and stamped, earlier items unchanged, only `items` and `updatedAt` change |
| `WishlistContext.RemoveItemSpec` | src/contexts/WishlistContext.tsx:119-123 | the items left are exactly the old items with another id, as often as before and in order; an absent id leaves the items unchanged; `updatedAt` is refreshed regardless |
| `WishlistContext.DeleteWishlistSpec` | src/contexts/WishlistContext.tsx:83-85 | deleting removes every wishlist with the id, keeps the others as often as before and in order, and deleting twice is deleting once |
| `WishlistContext.NarrowIsFilter` | src/contexts/WishlistContext.tsx:133-145 | the search step and the category step together keep exactly the catalog items that match both rules, in catalog order |
| `WishlistContext.OrderIsTotalPreorder` | src/contexts/WishlistContext.tsx:147-160 | the "may precede" relation `Order` of each of the four sort options is a total, transitive order when `localeCompare` is a consistent comparator; an absent price counts as 0 |
| `WishlistContext.FilteredItemsMatch` | src/contexts/WishlistContext.tsx:132-163 | every returned item matches the search and the categories, and every matching catalog item is returned as often as the catalog holds it |
| `WishlistContext.FilteredItemsOrdered` | src/contexts/WishlistContext.tsx:132-163 | the output is ordered by the chosen option, and items the comparator ties stay in catalog order |
| `WishlistContext.MugSearchNarrows` | src/contexts/WishlistContext.tsx:135-141 | the search "mug" is case-insensitive and keeps the red and the blue mug, in catalog order, and drops the novel |
| `WishlistContext.MugSearchExample` | src/contexts/WishlistContext.tsx:132-163 | searching "mug" by ascending price among a red mug (10), a blue mug (5) and a novel returns the blue mug, then the red one |
| `WishlistContext.BooksCategoryNarrows` | src/contexts/WishlistContext.tsx:143-145 | the category "Books" alone keeps only the novel and drops both mugs |
| `WishlistContext.CategoryExample` | src/contexts/WishlistContext.tsx:132-163 | getFilteredItems with no search, the category "Books" and name order returns only the novel |
| `WishlistContext.WishlistStore.constructor` | src/contexts/WishlistContext.tsx:29-31 | the store starts with no wishlists, no catalog and the default filter state |
| `WishlistContext.WishlistStore.Render` | src/contexts/WishlistContext.tsx:29 | after a render the provider's functions see the current wishlists |
| `WishlistContext.WishlistStore.ReloadForUser` | src/contexts/WishlistContext.tsx:33-42 | the effect body: with a user, the wishlists become that user's catalog wishlists and the catalog is loaded; without one, the wishlists become empty and the catalog stays |
| `WishlistContext.WishlistStore.ReloadOnIdentityChange` | src/contexts/WishlistContext.tsx:33-42 | the corrected trigger: an unchanged user id leaves wishlists and catalog alone; a changed id reloads exactly as the effect body does |
| `WishlistContext.UserId` | src/contexts/WishlistContext.tsx:35 | the signed-in user's id, absent exactly when no user is signed in |
| `WishlistContext.WishlistStore.SetFilterState` | src/contexts/WishlistContext.tsx:31 | the filter state becomes the given one |
| `WishlistContext.WishlistStore.CreateWishlist` | src/contexts/WishlistContext.tsx:44-62 | without a user it fails and changes nothing; otherwise it appends exactly one wishlist, with empty items, the user's id, a fresh id and both timestamps, and keeps every earlier entry |
| `WishlistContext.WishlistStore.UpdateWishlist` | src/contexts/WishlistContext.tsx:64-81 | an unknown id fails and changes nothing; otherwise only the found index changes, to the overlay with a new `updatedAt`, and the length stays |
| `WishlistContext.WishlistStore.DeleteWishlist` | src/contexts/WishlistContext.tsx:83-85 | never fails; the wishlists become the latest ones without that id |
| `WishlistContext.WishlistStore.AddItemToWishlist` | src/contexts/WishlistContext.tsx:87-111 | an unknown wishlist fails and changes nothing; otherwise only that wishlist changes, gaining the stamped item at the end |
| `WishlistContext.WishlistStore.RemoveItemFromWishlist` | src/contexts/WishlistContext.tsx:113-130 | an unknown wishlist fails and changes nothing; otherwise only that wishlist changes, losing its items with that id |
| `WishlistContext.WishlistStore.GetFilteredItems` | src/contexts/WishlistContext.tsx:132-163 | the result is getFilteredItems on the store's catalog and filter state (`FilteredItems`), so the order and count guarantees of `FilteredItemsMatch` and `FilteredItemsOrdered` apply; an item is returned exactly when it is in the catalog and matches the filter state; store state is only read |
| `WishlistContext.CreateAddRemove` | src/contexts/WishlistContext.tsx:44-130 | on a fresh store, with a render after each call: create a wishlist, add a book, and the wishlist holds exactly that book under a fresh id; removing it leaves no items |
| `WishlistContext.AddBeforeRenderFails` | src/contexts/WishlistContext.tsx:87-92 | an add made before the render that follows a create reads the old wishlists and fails with "not found" |
| `AuthContext.NewUser` | src/contexts/AuthContext.tsx:57-65 | the registered user has a non-empty id, the given name, gender other, an empty country, birth date and interests, and createdAt now |
| `AuthContext.FindByUsername` | src/contexts/AuthContext.tsx:52 | `find` by exact, case-sensitive name: none exactly when no catalog user has the name, otherwise the first that has it |
| `AuthContext.AuthProvider.constructor` | src/contexts/AuthContext.tsx:16-21 | the provider starts unauthenticated and loading, which is a consistent state |
| `AuthContext.AuthProvider.LoadStoredUser` | src/contexts/AuthContext.tsx:23-46 | a stored value that parses authenticates its user; one that does not is removed and the state is unauthenticated; without a stored value only the loading flag is cleared |
| `AuthContext.AuthProvider.Register` | src/contexts/AuthContext.tsx:48-83 | fails exactly when the catalog holds the name, setting only the error and the loading flag; otherwise the new user (given name, gender other, empty profile, fresh id and time) is authenticated and stored |
| `AuthContext.AuthProvider.Login` | src/contexts/AuthContext.tsx:85-110 | succeeds exactly when the catalog holds the name, with that catalog record, whatever the password; a failure sets only the error and the loading flag |
| `AuthContext.AuthProvider.Logout` | src/contexts/AuthContext.tsx:112-120 | always ends unauthenticated, not loading, without error, and removes the stored user |
| `AuthContext.AuthProvider.UpdateProfile` | src/contexts/AuthContext.tsx:122-148 | fails exactly when no user is current; otherwise the user becomes the old user overlaid with the patch, and is stored |
| `AuthContext.RegisterTwiceThenLogin` | src/contexts/AuthContext.tsx:48-110 | registering a name the catalog lacks succeeds twice in a row, and logging in with it afterwards fails |
| `AuthContext.LoginSurvivesReload` | src/contexts/AuthContext.tsx:23-46 | when decoding inverts encoding, the user a login stores is the user the next startup restores |
| `Recommendations.ToggleCategory` | src/pages/wishlist/Recommendations.tsx:55-63 | an absent category is appended at the end; a present one is dropped everywhere, every other category kept as often as before and in order |
| `Recommendations.ToggleTwiceRestores` | src/pages/wishlist/Recommendations.tsx:55-62 | toggling an absent category twice restores the list |
| `Recommendations.ToggleKeepsDistinct` | src/pages/wishlist/Recommendations.tsx:57-59 | a category list without duplicates keeps none after a toggle |
| `Recommendations.SetSearch` | src/pages/wishlist/Recommendations.tsx:47-49 | only the search text changes |
| `Recommendations.SetSortBy` | src/pages/wishlist/Recommendations.tsx:51-53 | only the sort option changes |
| `Recommendations.ToggleFilterCategory` | src/pages/wishlist/Recommendations.tsx:55-63 | only the categories change, and the toggled category's membership flips |
| `Recommendations.ResetFilters` | src/pages/wishlist/Recommendations.tsx:65-67 | the reset state is the store's default: empty search, no categories, name ascending |
| `Recommendations.ResetShowsWholeCatalog` | src/pages/wishlist/Recommendations.tsx:65-67 | after a reset every catalog item is shown, as often as in the catalog |
| `Recommendations.Preselect` | src/pages/wishlist/Recommendations.tsx:33-41 | the selection changes only to a non-empty query id that some wishlist has, and always does so when one has it |
| `Recommendations.RecommendationsPage.constructor` | src/pages/wishlist/Recommendations.tsx:26-28 | no wishlist, no item chosen, chooser closed |
| `Recommendations.RecommendationsPage.RunPreselection` | src/pages/wishlist/Recommendations.tsx:33-41 | the selection becomes the preselection of the current wishlists |
| `Recommendations.RecommendationsPage.HandleConfirmAdd` | src/pages/wishlist/Recommendations.tsx:78-95 | the item is added to the chosen wishlist; without a preselection, a successful add closes the chooser and forgets the item; a failure changes nothing else |
| `Recommendations.RecommendationsPage.HandleAddItem` | src/pages/wishlist/Recommendations.tsx:69-76 | with a preselected wishlist the item is added at once; otherwise it is remembered and the chooser opens, and the store is untouched |
| `WishlistDetail.ShownWishlist` | src/pages/wishlist/WishlistDetail.tsx:28-33 | with a route id, the shown wishlist is the first with that id, or none exactly when no wishlist has it; without one it stays |
| `WishlistDetail.UpdatePatch` | src/pages/wishlist/WishlistDetail.tsx:61-67 | the wishlist form submits name, description and visibility, never id, owner, creation time or items |
| `WishlistDetail.UnchangedEditKeepsWishlist` | src/pages/wishlist/WishlistDetail.tsx:276-278 | saving the edit form unchanged changes only the timestamp, but an absent description becomes empty |
| `WishlistDetail.NewManualItem` | src/pages/wishlist/WishlistDetail.tsx:98-107 | a fresh id, both timestamps now, name and category defaulting to empty, optional fields copied |
| `WishlistDetail.AcceptedFormMakesValidItem` | src/pages/wishlist/WishlistDetail.tsx:98-109 | an item built from an accepted form has a non-blank name, a category, a non-negative or absent price and an empty or http(s) image URL, and the store keeps its id and creation time |
| `WishlistDetail.MergeEdit` | src/pages/wishlist/WishlistDetail.tsx:126-130 | a new `updatedAt`; for each of the other seven keys (id, name, description, category, price, imageUrl, createdAt) a key present in the form data wins and an absent key keeps the selected item's value; an empty patch changes only `updatedAt` |
| `WishlistDetail.EditKeepsIdentity` | src/pages/wishlist/WishlistDetail.tsx:126-130 | the item form carries no id or creation time, so an edited item keeps both |
| `WishlistDetail.UnchangedEditKeepsItem` | src/pages/wishlist/WishlistDetail.tsx:335-337 | saving the item edit form unchanged changes only the timestamp, but absent description and image URL become empty |
| `WishlistDetail.StaleEditDuplicates` | src/pages/wishlist/WishlistDetail.tsx:118-140 | as written, editing leaves one more item with the edited id than before: the original stays and the edited copy is appended |
| `WishlistDetail.ReplaceItem` | src/pages/wishlist/WishlistDetail.tsx:124-132 | the intended edit: the edited copy ends the items and the wishlist keeps its id and owner |
| `WishlistDetail.ReplaceItemSpec` | src/pages/wishlist/WishlistDetail.tsx:124-132 | after the intended edit exactly one item has the id, the edited copy, and every other item is kept in order |
| `WishlistDetail.DetailPage.constructor` | src/pages/wishlist/WishlistDetail.tsx:19-25 | no wishlist shown, no item chosen |
| `WishlistDetail.DetailPage.RunRouteEffect` | src/pages/wishlist/WishlistDetail.tsx:28-33 | the shown wishlist becomes `ShownWishlist` of the route id and the current wishlists |
| `WishlistDetail.DetailPage.SelectItem` | src/pages/wishlist/WishlistDetail.tsx:158-166 | the item becomes the one the edit and delete handlers work on |
| `WishlistDetail.DetailPage.HandleUpdate` | src/pages/wishlist/WishlistDetail.tsx:61-74 | no-op without a shown wishlist; otherwise the store's update with the form's fields |
| `WishlistDetail.DetailPage.HandleDelete` | src/pages/wishlist/WishlistDetail.tsx:76-90 | no-op without a shown wishlist; otherwise every wishlist with its id is removed |
| `WishlistDetail.DetailPage.HandleAddItem` | src/pages/wishlist/WishlistDetail.tsx:92-116 | no-op without a shown wishlist; otherwise the built item is appended to it |
| `WishlistDetail.DetailPage.HandleUpdateItem` | src/pages/wishlist/WishlistDetail.tsx:118-140 | no-op without a wishlist or a chosen item; otherwise the stored wishlist is the rendered one plus the merged item, and the choice is cleared |
| `WishlistDetail.DetailPage.HandleDeleteItem` | src/pages/wishlist/WishlistDetail.tsx:142-156 | no-op without a wishlist or a chosen item; otherwise the chosen item's id leaves the wishlist and the choice is cleared |
| `ItemForm.ItemAsPatch` | src/pages/wishlist/WishlistDetail.tsx:335-337 | an existing item handed to the form has all eight keys present, each holding the item's own value (the optional ones possibly `undefined`) |
| `ItemForm.InitialFormData` | src/components/wishlist/ItemForm.tsx:18-43 | for any initial data: a non-empty name, description or image URL is kept and a missing or empty one becomes empty; a non-empty category is kept and a missing or empty one becomes the first listed; the price is kept; no initial data gives the defaults |
| `ItemForm.EditFormShowsItem` | src/components/wishlist/ItemForm.tsx:33-43 | editing an item starts from its own values |
| `ItemForm.HandleChange` | src/components/wishlist/ItemForm.tsx:45-52 | only the named input changes, and only its own error is cleared |
| `ItemForm.HandlePriceChange` | src/components/wishlist/ItemForm.tsx:54-67 | an empty input makes the price absent, any other its parsed value (NaN as 0); only the price and its error change |
| `ItemForm.Validate` | src/components/wishlist/ItemForm.tsx:69-100 | blank name, missing category, negative price and a non-URL image each set their message; valid exactly when no message is set, exactly when the form is acceptable |
| `ItemForm.AsPatch` | src/components/wishlist/ItemForm.tsx:18-24 | the submitted data holds the five form keys and no id or timestamps |
| `ItemForm.HandleSubmit` | src/components/wishlist/ItemForm.tsx:102-108 | the form data is submitted exactly when validate accepts it |
| `WishlistForm.WishlistAsPatch` | src/pages/wishlist/WishlistDetail.tsx:276-278 | an existing wishlist handed to the form has all eight keys present, each holding the wishlist's own value |
| `WishlistForm.InitialFormData` | src/components/wishlist/WishlistForm.tsx:17-35 | for any initial data: a non-empty name or description is kept and a missing or empty one becomes empty; a present visibility is kept and a missing one is public |
| `WishlistForm.EditFormShowsWishlist` | src/components/wishlist/WishlistForm.tsx:27-35 | editing a wishlist starts from its own name, description and visibility |
| `WishlistForm.HandleChange` | src/components/wishlist/WishlistForm.tsx:37-44 | only the named input changes; typing into the name clears the name error |
| `WishlistForm.HandleToggleChange` | src/components/wishlist/WishlistForm.tsx:46-49 | the visibility follows the checkbox and nothing else changes |
| `WishlistForm.Validate` | src/components/wishlist/WishlistForm.tsx:51-62 | valid exactly when the name is not blank, exactly when no message is set |
| `WishlistForm.HandleSubmit` | src/components/wishlist/WishlistForm.tsx:64-70 | name, description and visibility are submitted exactly when the name is not blank |
| `RegisterForm.HandleChange` | src/components/auth/RegisterForm.tsx:29-36 | only the named input changes, and only its own error is cleared |
| `RegisterForm.UsernameError` | src/components/auth/RegisterForm.tsx:48-54 | "required" exactly when the username is blank; no message exactly when it is not blank and at least three characters long |
| `RegisterForm.EmailError` | src/components/auth/RegisterForm.tsx:56-62 | "required" exactly when the e-mail is blank; no message exactly when the pattern accepts it |
| `RegisterForm.PasswordError` | src/components/auth/RegisterForm.tsx:64-70 | "required" exactly when the password is empty; no message exactly when it is at least six characters long |
| `RegisterForm.Validate` | src/components/auth/RegisterForm.tsx:38-79 | username, e-mail and password each get at most one message, the confirmation its own on any mismatch; valid exactly when no message is set, exactly when the form is acceptable |
| `RegisterForm.PaddedUsernamePasses` | src/components/auth/RegisterForm.tsx:48-54 | the length is counted with surrounding white space: `" a "` passes the username check |
| `RegisterForm.HandleSubmit` | src/components/auth/RegisterForm.tsx:81-100 | rejected data never reaches the store; accepted data registers the username (the e-mail is not passed on), and a failure becomes the form error |
| `LoginForm.HandleChange` | src/components/auth/LoginForm.tsx:25-32 | only the named input changes, and only its own error is cleared |
| `LoginForm.Validate` | src/components/auth/LoginForm.tsx:34-54 | a blank username and an empty password each set their message; valid exactly when neither is set |
| `LoginForm.BlankPasswordPasses` | src/components/auth/LoginForm.tsx:42-50 | a password of spaces passes, although a username of spaces does not |
| `LoginForm.HandleSubmit` | src/components/auth/LoginForm.tsx:56-75 | rejected data never reaches the store; accepted data logs in, and a failure becomes the form error |
| `ProfileForm.EditModeFormData` | src/components/auth/ProfileForm.tsx:32-41 | in edit mode with a current user the four fields come from that user; otherwise the form stays |
| `ProfileForm.HandleChange` | src/components/auth/ProfileForm.tsx:43-50 | only the named input changes; the country and birth date clear their own error, the gender has none |
| `ProfileForm.HandleInterestChange` | src/components/auth/ProfileForm.tsx:52-66 | checking appends the interest; unchecking drops every occurrence and keeps the rest in order |
| `ProfileForm.CheckThenUncheckRestores` | src/components/auth/ProfileForm.tsx:55-64 | checking an absent interest and unchecking it restores the form |
| `ProfileForm.BirthDateError` | src/components/auth/ProfileForm.tsx:81-97 | at most one birth-date message: required when empty, future when after now, minimum age when between the age limit and now |
| `ProfileForm.Validate` | src/components/auth/ProfileForm.tsx:68-101 | an empty country and a bad birth date set their messages; valid exactly when none is set, exactly when the form is acceptable |
| `ProfileForm.UnparsableBirthDatePasses` | src/components/auth/ProfileForm.tsx:85-96 | a birth date that does not parse passes the check |
| `ProfileForm.AsPatch` | src/components/auth/ProfileForm.tsx:17-22 | the submitted data never carries the id, the username or the creation time |
| `ProfileForm.ProfileUpdateKeepsIdentity` | src/components/auth/ProfileForm.tsx:112 | saving the profile changes exactly the four profile fields of the user |
| `Session.ProfileEditDropsCreatedWishlist` | src/contexts/WishlistContext.tsx:33-42 | as written: a wishlist created in the session is there before a profile edit, and after the edit reruns the reload no wishlist has its id |
| `Session.ProfileEditKeepsCreatedWishlist` | src/contexts/WishlistContext.tsx:33-42 | corrected: with the reload keyed on the user's id, the wishlist created before a profile edit is still there after it |
| `ProfileForm.HandleSubmit` | src/components/auth/ProfileForm.tsx:103-122 | rejected data never reaches the store; accepted data updates the current user, and a failure becomes the form error |

## Left out

- Rendering, routing, navigation, console logging, the modal flags other than the item chooser,
  and the pages' `isLoading` flags are view-layer state. None of them decides what is stored.
- `src/data/mockData` is not part of this model. The user catalog, the wishlist and item catalogs
  and the category list are parameters.
- `Date.now()` and `toISOString()` are read through a `Clock` value, taken once per operation.
  The two timestamp calls inside one operation therefore give the same instant. The risk of two
  ids colliding within one millisecond is not modelled.
- `JSON.stringify`, `JSON.parse` and local storage become an abstract `Codec` and a string map.
  Storage writes never fail. A stored value that parses to something other than a user, such as
  `null`, is not distinguished from a user.
- Locale and Unicode are modelled only in part:
  - `localeCompare` is a parameter, assumed to be a consistent comparator;
  - `toLowerCase` lower-cases ASCII letters only;
  - string lengths count Unicode scalar values, not UTF-16 code units.
- Floating point is modelled only in part: prices are reals, `parseFloat` is a parameter (with NaN
  as `None`), and ProfileForm's `new Date(...)` and `setFullYear` are parameters giving millisecond
  counts.
- The async operations run to completion one at a time; interleavings are not modelled. Functional
  updates and direct writes differ only through the `rendered` snapshot of the wishlist store.
- The identity store's updateProfile reads `authState.user` from its render, as the wishlist
  handlers do. The model takes that render to be current.
- A required key of a patch that holds `undefined` is treated as absent. This matters only for the
  item form's category when the category list is empty, and such a form never passes validation.
- `ItemForm.HandleChange`: the error is cleared only when it shows a message, as the source does;
  that outcome is the same as always clearing it.

## Findings

| source | as written | input that shows it | evidently intended | confidence | as-written member | corrected member |
|---|---|---|---|---|---|---|
| src/pages/wishlist/WishlistDetail.tsx:118-140 | removeItemFromWishlist and addItemToWishlist both start from the wishlists captured by the same render, so the add overwrites the remove's result | a wishlist holding one item `item-1`, which is edited and saved under a new name: afterwards the wishlist holds the old `item-1` and the edited `item-1` | the edited item replaces the old one, so exactly one item keeps that id | not executed | `WishlistDetail.DetailPage.HandleUpdateItem`, shown by `WishlistDetail.StaleEditDuplicates` | `WishlistDetail.ReplaceItem`, proved by `WishlistDetail.ReplaceItemSpec` |
| src/contexts/WishlistContext.tsx:33-42 | the reload effect depends on `authState.user`, and updateProfile stores a new user object (src/contexts/AuthContext.tsx:130-139), so the effect reruns after every profile edit and replaces the session's wishlists with the catalog's | a signed-in user creates a wishlist, then saves the profile form: afterwards no wishlist has the new wishlist's id | the wishlists reload only when the signed-in identity changes, so a profile edit keeps them | not executed | `Session.ProfileEditDropsCreatedWishlist` | `WishlistContext.WishlistStore.ReloadOnIdentityChange`, proved by `Session.ProfileEditKeepsCreatedWishlist` |
