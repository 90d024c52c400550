/** The session state of `src/context/AuthContext.tsx`: the signed-in
    account, its registry record and the loading flag, the get-or-create
    fetch of the record, the auth-state listener, sign-in, sign-up and
    sign-out, and the three capability flags derived from the record.
    The identity provider is outside the model: the account it returns is a
    parameter, and so is a failing registry read. */
module Auth {
  import opened Wrappers
  import opened Types
  import Users
  import opened Backend

  /** What the identity provider reports about an account. */
  datatype AuthUser = AuthUser(uid: string, email: Option<string>, displayName: Option<string>)

  class AuthSession {
    var user: Option<AuthUser>
    var appUser: Option<AppUser>
    var loading: bool

    /** `useState(null)`, `useState(null)`, `useState(true)`. */
    constructor ()
      ensures user == None && appUser == None && loading
    {
      user, appUser, loading := None, None, true;
    }

    predicate IsAdmin()
      reads this
    {
      Users.IsAdmin(appUser)
    }

    predicate IsApproved()
      reads this
    {
      Users.IsApproved(appUser)
    }

    predicate CanCreateDocuments()
      reads this
    {
      Users.CanCreateDocuments(appUser)
    }

    /** `fetchAppUser`: read the record; when there is none, create it (the
        missing email becomes "") and read it again. A failing read leaves
        `appUser` null and writes nothing. */
    method FetchAppUser(store: Store, account: AuthUser, readFails: bool)
      requires store.Valid()
      modifies this`appUser, store`users, store`clock
      ensures store.Valid()
      ensures readFails ==> appUser == None && store.users == old(store.users)
      ensures !readFails && account.uid in old(store.users) ==>
        store.users == old(store.users) && appUser == Some(old(store.users[account.uid]))
      ensures !readFails && account.uid !in old(store.users) ==>
        store.users == old(store.users)[account.uid := Users.NewUser(account.uid, account.email.GetOr(""),
          account.displayName, old(store.users) == map[], old(store.clock))]
      ensures !readFails ==> account.uid in store.users && appUser == Some(store.users[account.uid])
    {
      if readFails {
        appUser := None;
        return;
      }
      var record := store.GetUser(account.uid);
      if record.None? {
        store.CreateUser(account.uid, account.email.GetOr(""), account.displayName);
        record := store.GetUser(account.uid);
      }
      appUser := record;
    }

    /** The `onAuthStateChanged` listener: record the account, fetch or
        clear its registry record, and stop loading. */
    method OnAuthStateChanged(store: Store, account: Option<AuthUser>, readFails: bool)
      requires store.Valid()
      modifies this, store`users, store`clock
      ensures store.Valid()
      ensures user == account && !loading
      ensures account.None? ==> appUser == None && store.users == old(store.users)
      ensures account.Some? && !readFails ==>
        account.value.uid in store.users && appUser == Some(store.users[account.value.uid])
      ensures account.Some? && readFails ==> appUser == None && store.users == old(store.users)
    {
      user := account;
      if account.Some? {
        FetchAppUser(store, account.value, readFails);
      } else {
        appUser := None;
      }
      loading := false;
    }

    /** `refreshAppUser`: fetch again for the signed-in account, if any. */
    method RefreshAppUser(store: Store, readFails: bool)
      requires store.Valid()
      modifies this`appUser, store`users, store`clock
      ensures store.Valid()
      ensures user.None? ==> appUser == old(appUser) && store.users == old(store.users)
      ensures user.Some? && !readFails ==> user.value.uid in store.users && appUser == Some(store.users[user.value.uid])
      ensures user.Some? && !readFails && user.value.uid in old(store.users) ==>
        store.users == old(store.users) && appUser == Some(old(store.users[user.value.uid]))
      ensures user.Some? && readFails ==> appUser == None && store.users == old(store.users)
    {
      if user.Some? {
        FetchAppUser(store, user.value, readFails);
      }
    }

    /** `signIn` and `signInWithGoogle`: after the provider accepts the
        account, fetch its record. */
    method SignIn(store: Store, account: AuthUser, readFails: bool)
      requires store.Valid()
      modifies this`appUser, store`users, store`clock
      ensures store.Valid()
      ensures !readFails && account.uid in old(store.users) ==>
        store.users == old(store.users) && appUser == Some(old(store.users[account.uid]))
      ensures !readFails ==> account.uid in store.users && appUser == Some(store.users[account.uid])
      ensures readFails ==> appUser == None && store.users == old(store.users)
    {
      FetchAppUser(store, account, readFails);
    }

    /** `signUp`: write the registry record for the new account (without a
        display name), then fetch it, which finds the record just written. */
    method SignUp(store: Store, uid: string, email: string, readFails: bool)
      requires store.Valid()
      modifies this`appUser, store`users, store`clock
      ensures store.Valid()
      ensures store.users == old(store.users)[uid := Users.NewUser(uid, email, None, old(store.users) == map[], old(store.clock))]
      ensures !readFails ==> appUser == Some(store.users[uid])
      ensures readFails ==> appUser == None
      ensures !readFails && old(store.users) == map[] ==> IsAdmin() && CanCreateDocuments()
      ensures !readFails && old(store.users) != map[] ==> !IsApproved() && !CanCreateDocuments()
    {
      store.CreateUser(uid, email, None);
      FetchAppUser(store, AuthUser(uid, Some(email), None), readFails);
      Users.CapabilityChain(appUser);
    }

    /** `signOut`: the record is dropped, so every flag is off. */
    method SignOut()
      modifies this`appUser
      ensures appUser == None
      ensures !IsAdmin() && !IsApproved() && !CanCreateDocuments()
    {
      appUser := None;
    }
  }
}
