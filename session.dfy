/** The two providers of one session together: the wishlist provider's reload effect depends on
    `authState.user` (src/contexts/WishlistContext.tsx:33-42), and every successful setAuthState of the
    identity provider stores a new user object, so the effect reruns after a profile edit as after a
    login. */
module Session {
  import opened Types
  import AuthContext
  import WishlistContext

  /** As written: the profile edit stores a new user object, React sees a changed dependency and reruns
      the reload, and it replaces the session's wishlists with the catalog's, so a wishlist created
      before the edit is gone. */
  method ProfileEditDropsCreatedWishlist(auth: AuthContext.AuthProvider, mockWishlists: seq<Wishlist>,
                                         mockItems: seq<WishlistItem>, patch: UserPatch, clock: Clock)
      returns (created: Result<Wishlist>, before: seq<Wishlist>, after: seq<Wishlist>)
    requires auth.Consistent() && auth.authState.user.Some?
    requires forall w :: w in mockWishlists ==> w.id != "wishlist-" + clock.millis
    modifies auth
    ensures created.Ok? && created.value.id == "wishlist-" + clock.millis
    ensures created.value in before
    ensures forall w :: w in after ==> w.id != created.value.id
  {
    var store := new WishlistContext.WishlistStore();
    store.ReloadForUser(auth.authState.user, mockWishlists, mockItems);
    store.Render();
    created := store.CreateWishlist(auth.authState.user, "A", "", true, clock);
    before := store.wishlists;
    var outcome := auth.UpdateProfile(patch);
    store.ReloadForUser(auth.authState.user, mockWishlists, mockItems);
    after := store.wishlists;
  }

  /** Corrected: with the reload keyed on the user's id, a profile edit that leaves the id alone (the
      profile form never sends one) keeps the wishlist created before it. */
  method ProfileEditKeepsCreatedWishlist(auth: AuthContext.AuthProvider, mockWishlists: seq<Wishlist>,
                                         mockItems: seq<WishlistItem>, patch: UserPatch, clock: Clock)
      returns (created: Result<Wishlist>, after: seq<Wishlist>)
    requires auth.Consistent() && auth.authState.user.Some? && patch.id.None?
    modifies auth
    ensures created.Ok? && created.value.id == "wishlist-" + clock.millis
    ensures created.value in after
  {
    var store := new WishlistContext.WishlistStore();
    store.ReloadForUser(auth.authState.user, mockWishlists, mockItems);
    store.Render();
    created := store.CreateWishlist(auth.authState.user, "A", "", true, clock);
    var before := auth.authState.user;
    var outcome := auth.UpdateProfile(patch);
    store.ReloadOnIdentityChange(before, auth.authState.user, mockWishlists, mockItems);
    after := store.wishlists;
  }
}
