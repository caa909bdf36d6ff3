/** The records of src/types/index.ts, the `Partial<T>` patches the stores accept,
    and the oracles that stand in for the clock and for thrown errors. */
module Types {

  datatype Option<T> = None | Some(value: T) {
    /** `o ?? default` */
    function GetOr(default: T): T {
      if Some? then value else default
    }
  }

  /** The value read from an optional key of a `Partial<T>`: absent, or present holding an optional value. */
  function Flatten<T>(o: Option<Option<T>>): Option<T> {
    if o.Some? then o.value else None
  }

  /** JavaScript's `s || fallback` for a string that may be undefined: empty and absent both fall back. */
  function OrElse(s: Option<string>, fallback: string): string {
    if s.Some? && s.value != "" then s.value else fallback
  }

  /** The outcome of an operation that returns a value or throws `new Error(message)`. */
  datatype Result<T> = Ok(value: T) | Err(message: string)

  /** The outcome of an operation that returns nothing or throws `new Error(message)`. */
  datatype Outcome = Pass | Fail(message: string)

  /** `Date.now()` (the digits of the millisecond count) and `new Date().toISOString()`,
      read once per operation. */
  datatype Clock = Clock(millis: string, iso: string)

  datatype Gender = Male | Female | Other

  datatype User = User(
    id: string,
    username: string,
    gender: Gender,
    country: string,
    birthDate: string,
    interests: seq<string>,
    createdAt: string)

  datatype AuthState = AuthState(
    user: Option<User>,
    isAuthenticated: bool,
    isLoading: bool,
    error: Option<string>)

  datatype WishlistItem = WishlistItem(
    id: string,
    name: string,
    description: Option<string>,
    category: string,
    price: Option<real>,
    imageUrl: Option<string>,
    createdAt: string,
    updatedAt: string)

  datatype Wishlist = Wishlist(
    id: string,
    name: string,
    description: Option<string>,
    isPublic: bool,
    createdAt: string,
    updatedAt: string,
    userId: string,
    items: seq<WishlistItem>)

  datatype SortOption = PriceAsc | PriceDesc | NameAsc | NameDesc

  datatype FilterState = FilterState(search: string, categories: seq<string>, sortBy: SortOption)

  /** `Partial<User>`: `Some` for each key present in the object. */
  datatype UserPatch = UserPatch(
    id: Option<string>,
    username: Option<string>,
    gender: Option<Gender>,
    country: Option<string>,
    birthDate: Option<string>,
    interests: Option<seq<string>>,
    createdAt: Option<string>)

  /** `Partial<Wishlist>`; a present `description` key may hold `undefined`. */
  datatype WishlistPatch = WishlistPatch(
    id: Option<string>,
    name: Option<string>,
    description: Option<Option<string>>,
    isPublic: Option<bool>,
    createdAt: Option<string>,
    updatedAt: Option<string>,
    userId: Option<string>,
    items: Option<seq<WishlistItem>>)

  /** `Partial<WishlistItem>`; present optional keys may hold `undefined`. */
  datatype ItemPatch = ItemPatch(
    id: Option<string>,
    name: Option<string>,
    description: Option<Option<string>>,
    category: Option<string>,
    price: Option<Option<real>>,
    imageUrl: Option<Option<string>>,
    createdAt: Option<string>,
    updatedAt: Option<string>)

  /** `{ ...u, ...patch }` */
  function OverlayUser(u: User, patch: UserPatch): (r: User)
    ensures patch.id.Some? ==> r.id == patch.id.value
    ensures patch.id.None? ==> r.id == u.id
    ensures patch.username.Some? ==> r.username == patch.username.value
    ensures patch.username.None? ==> r.username == u.username
    ensures patch.gender.Some? ==> r.gender == patch.gender.value
    ensures patch.gender.None? ==> r.gender == u.gender
    ensures patch.country.Some? ==> r.country == patch.country.value
    ensures patch.country.None? ==> r.country == u.country
    ensures patch.birthDate.Some? ==> r.birthDate == patch.birthDate.value
    ensures patch.birthDate.None? ==> r.birthDate == u.birthDate
    ensures patch.interests.Some? ==> r.interests == patch.interests.value
    ensures patch.interests.None? ==> r.interests == u.interests
    ensures patch.createdAt.Some? ==> r.createdAt == patch.createdAt.value
    ensures patch.createdAt.None? ==> r.createdAt == u.createdAt
    ensures patch == UserPatch(None, None, None, None, None, None, None) ==> r == u
  {
    User(
      patch.id.GetOr(u.id),
      patch.username.GetOr(u.username),
      patch.gender.GetOr(u.gender),
      patch.country.GetOr(u.country),
      patch.birthDate.GetOr(u.birthDate),
      patch.interests.GetOr(u.interests),
      patch.createdAt.GetOr(u.createdAt))
  }
}
