/** The identity store of src/contexts/AuthContext.tsx: one `authState` record, mirrored to the
    `'user'` key of local storage, checked against the static user catalog. */
module AuthContext {
  import opened Types

  const DuplicateUsernameMessage: string := "Пользователь с таким именем уже существует"
  const InvalidCredentialsMessage: string := "Неверное имя пользователя или пароль"
  const NotAuthorizedMessage: string := "Пользователь не авторизован"

  /** The local-storage key under which the logged-in user is kept. */
  const UserKey: string := "user"

  /** The state the provider starts in, before the startup effect has run. */
  const InitialAuthState: AuthState := AuthState(None, false, true, None)

  /** `users.find(user => user.username === username)`: an exact, case-sensitive match, first one wins. */
  function FindByUsername(users: seq<User>, username: string): (r: Option<User>)
    ensures r.None? <==> forall j :: 0 <= j < |users| ==> users[j].username != username
    ensures r.Some? ==> exists j :: 0 <= j < |users| && users[j] == r.value && r.value.username == username
                          && forall k :: 0 <= k < j ==> users[k].username != username
  {
    if users == [] then None
    else if users[0].username == username then Some(users[0])
    else
      var r := FindByUsername(users[1..], username);
      if r.Some? then
        ghost var j :| 0 <= j < |users[1..]| && users[1..][j] == r.value && r.value.username == username
               && forall k :: 0 <= k < j ==> users[1..][k].username != username;
        assert users[j + 1] == r.value;
        r
      else r
  }

  /** The record register creates: the given name, an id from the clock and an empty profile. */
  function NewUser(username: string, clock: Clock): (r: User)
    ensures r.id != "" && r.username == username && r.createdAt == clock.iso
    ensures r.gender == Other && r.country == "" && r.birthDate == "" && r.interests == []
  {
    User("user-" + clock.millis, username, Other, "", "", [], clock.iso)
  }

  /** `JSON.stringify` and `JSON.parse`, as far as the store depends on them: decoding fails (`None`) on
      a value that does not parse. */
  datatype Codec = Codec(encode: User -> string, decode: string -> Option<User>)

  /** The provider. `storage` is local storage (a key maps to its string; a missing key reads as
      `null`); `mockUsers` is the static user catalog. */
  class AuthProvider {
    var authState: AuthState
    var storage: map<string, string>
    const mockUsers: seq<User>
    const codec: Codec

    /** In every state the provider writes, the user is authenticated exactly when there is a user. */
    ghost predicate Consistent()
      reads this
    {
      authState.isAuthenticated <==> authState.user.Some?
    }

    constructor (mockUsers: seq<User>, codec: Codec, storage: map<string, string>)
      ensures this.mockUsers == mockUsers && this.codec == codec && this.storage == storage
      ensures authState == InitialAuthState && Consistent()
    {
      this.mockUsers := mockUsers;
      this.codec := codec;
      this.storage := storage;
      authState := InitialAuthState;
    }

    /** The startup effect: a stored value that parses makes its user the authenticated user; one that
        does not parse is removed and the provider is unauthenticated; without a (non-empty) stored value
        only the loading flag is cleared. */
    method LoadStoredUser()
      requires Consistent()
      modifies this`authState, this`storage
      ensures Consistent()
      ensures UserKey in old(storage) && old(storage)[UserKey] != "" ==>
        match codec.decode(old(storage)[UserKey])
        case Some(user) => authState == AuthState(Some(user), true, false, None) && storage == old(storage)
        case None => authState == AuthState(None, false, false, None) && storage == old(storage) - {UserKey}
      ensures !(UserKey in old(storage) && old(storage)[UserKey] != "") ==>
        authState == old(authState).(isLoading := false) && storage == old(storage)
    {
      if UserKey in storage && storage[UserKey] != "" {
        var parsed := codec.decode(storage[UserKey]);
        if parsed.Some? {
          authState := AuthState(parsed, true, false, None);
        } else {
          storage := storage - {UserKey};
          authState := AuthState(None, false, false, None);
        }
      } else {
        authState := authState.(isLoading := false);
      }
    }

    /** register: fails exactly when the catalog already holds the name; the catalog is never extended.
        The password is not read. */
    method Register(username: string, password: string, clock: Clock) returns (outcome: Outcome)
      requires Consistent()
      modifies this`authState, this`storage
      ensures Consistent()
      ensures outcome.Pass? <==> FindByUsername(mockUsers, username).None?
      ensures outcome.Pass? ==>
        && authState == AuthState(Some(NewUser(username, clock)), true, false, None)
        && (var u := authState.user.value;
            && u.id == "user-" + clock.millis && u.username == username && u.gender == Other && u.country == ""
            && u.birthDate == "" && u.interests == [] && u.createdAt == clock.iso)
        && storage == old(storage)[UserKey := codec.encode(NewUser(username, clock))]
      ensures outcome.Fail? ==>
        && outcome.message == DuplicateUsernameMessage
        && authState == old(authState).(isLoading := false, error := Some(DuplicateUsernameMessage))
        && storage == old(storage)
    {
      authState := authState.(isLoading := true, error := None);
      var existing := FindByUsername(mockUsers, username);
      if existing.Some? {
        authState := authState.(isLoading := false, error := Some(DuplicateUsernameMessage));
        return Fail(DuplicateUsernameMessage);
      }
      var newUser := NewUser(username, clock);
      storage := storage[UserKey := codec.encode(newUser)];
      authState := AuthState(Some(newUser), true, false, None);
      outcome := Pass;
    }

    /** login: succeeds exactly when the catalog holds the name, with that catalog record; the password
        is not read. */
    method Login(username: string, password: string) returns (outcome: Outcome)
      requires Consistent()
      modifies this`authState, this`storage
      ensures Consistent()
      ensures outcome.Pass? <==> FindByUsername(mockUsers, username).Some?
      ensures outcome.Pass? ==>
        var user := FindByUsername(mockUsers, username).value;
        && user in mockUsers && user.username == username
        && authState == AuthState(Some(user), true, false, None)
        && storage == old(storage)[UserKey := codec.encode(user)]
      ensures outcome.Fail? ==>
        && outcome.message == InvalidCredentialsMessage
        && authState == old(authState).(isLoading := false, error := Some(InvalidCredentialsMessage))
        && storage == old(storage)
    {
      authState := authState.(isLoading := true, error := None);
      var found := FindByUsername(mockUsers, username);
      if found.None? {
        authState := authState.(isLoading := false, error := Some(InvalidCredentialsMessage));
        return Fail(InvalidCredentialsMessage);
      }
      storage := storage[UserKey := codec.encode(found.value)];
      authState := AuthState(found, true, false, None);
      outcome := Pass;
    }

    method Logout()
      modifies this`authState, this`storage
      ensures Consistent()
      ensures authState == AuthState(None, false, false, None)
      ensures storage == old(storage) - {UserKey}
    {
      storage := storage - {UserKey};
      authState := AuthState(None, false, false, None);
    }

    /** updateProfile: fails without a current user; otherwise the new user is the old one with the
        patch's keys written over it. */
    method UpdateProfile(patch: UserPatch) returns (outcome: Outcome)
      requires Consistent()
      modifies this`authState, this`storage
      ensures Consistent()
      ensures outcome.Pass? <==> old(authState).user.Some?
      ensures outcome.Pass? ==>
        var updated := OverlayUser(old(authState).user.value, patch);
        && authState == AuthState(Some(updated), true, false, None)
        && storage == old(storage)[UserKey := codec.encode(updated)]
      ensures outcome.Fail? ==>
        && outcome.message == NotAuthorizedMessage
        && authState == old(authState).(isLoading := false, error := Some(NotAuthorizedMessage))
        && storage == old(storage)
    {
      var current := authState.user;
      authState := authState.(isLoading := true, error := None);
      if current.None? {
        authState := authState.(isLoading := false, error := Some(NotAuthorizedMessage));
        return Fail(NotAuthorizedMessage);
      }
      var updated := OverlayUser(current.value, patch);
      storage := storage[UserKey := codec.encode(updated)];
      authState := AuthState(Some(updated), true, false, None);
      outcome := Pass;
    }
  }

  /** Registering a name the catalog lacks succeeds twice in a row, because register never adds the
      new user to the catalog; and the freshly registered name still cannot log in. */
  method RegisterTwiceThenLogin(auth: AuthProvider, username: string, clock1: Clock, clock2: Clock)
      returns (first: Outcome, second: Outcome, login: Outcome)
    requires auth.Consistent()
    requires FindByUsername(auth.mockUsers, username).None?
    modifies auth
    ensures first.Pass? && second.Pass? && login == Fail(InvalidCredentialsMessage)
    ensures auth.authState.user == Some(NewUser(username, clock2))
  {
    first := auth.Register(username, "secret", clock1);
    second := auth.Register(username, "secret", clock2);
    login := auth.Login(username, "secret");
  }

  /** What login stores is what the next startup restores, whenever decoding inverts encoding. */
  method LoginSurvivesReload(auth: AuthProvider, username: string) returns (outcome: Outcome)
    requires auth.Consistent()
    requires forall u :: auth.codec.decode(auth.codec.encode(u)) == Some(u)
    requires forall u :: auth.codec.encode(u) != ""
    modifies auth
    ensures outcome.Pass? ==> auth.authState == AuthState(FindByUsername(auth.mockUsers, username), true, false, None)
  {
    outcome := auth.Login(username, "");
    auth.authState := InitialAuthState;
    auth.LoadStoredUser();
  }
}
