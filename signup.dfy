/** The sign-up form of `src/app/signup/page.tsx`: its `handleSubmit`
    checks the two passwords before asking the session to create the
    account. The identity provider's answer is a parameter: `providerError`
    is `None` when it accepts the account, and otherwise what it threw, with
    the message of an `Error` or `None` for any other value. */
module SignUpPage {
  import opened Wrappers
  import Users
  import opened Backend
  import opened Auth
  import opened Text

  const MISMATCH := "Passwords do not match"
  const TOO_SHORT := "Password must be at least 6 characters"
  const FALLBACK := "Failed to create account"
  const GOOGLE_FALLBACK := "Failed to sign in with Google"
  const MIN_PASSWORD := 6

  /** The message `handleSubmit` leaves for the given passwords before any
      call is made, if one of its checks fails. The minimum is on
      `password.length`, in UTF-16 code units. */
  function PasswordProblem(password: string, confirmPassword: string): (r: Option<string>)
    ensures r == Some(MISMATCH) <==> password != confirmPassword
    ensures r == Some(TOO_SHORT) <==> password == confirmPassword && Utf16Length(password) < MIN_PASSWORD
    ensures r.None? <==> password == confirmPassword && Utf16Length(password) >= MIN_PASSWORD
  {
    if password != confirmPassword then Some(MISMATCH)
    else if Utf16Length(password) < MIN_PASSWORD then Some(TOO_SHORT)
    else None
  }

  /** Three characters outside the Basic Multilingual Plane are six code
      units, so they pass the minimum; three ordinary letters do not. */
  lemma PasswordLengthInCodeUnits()
    ensures PasswordProblem("\U{1F600}\U{1F600}\U{1F600}", "\U{1F600}\U{1F600}\U{1F600}").None?
    ensures PasswordProblem("abc", "abc") == Some(TOO_SHORT)
  {
    assert "\U{1F600}\U{1F600}\U{1F600}"[1..] == "\U{1F600}\U{1F600}";
    assert "\U{1F600}\U{1F600}"[1..] == "\U{1F600}";
  }

  class SignUpForm {
    var email: string
    var password: string
    var confirmPassword: string
    var error: string
    var loading: bool

    constructor ()
      ensures email == "" && password == "" && confirmPassword == "" && error == "" && !loading
    {
      email, password, confirmPassword, error, loading := "", "", "", "", false;
    }

    /** `handleSubmit`. A failing check shows its message and returns before
        `loading` is touched and before anything is written. Otherwise the
        account is created (the registry record by the session's `signUp`,
        whose read-back may fail with `readFails`, leaving no record held and
        no message shown), or the provider's message, falling back to a fixed text, is shown;
        `loading` ends false either way. */
    method HandleSubmit(session: AuthSession, store: Store, uid: string, providerError: Option<Option<string>>, readFails: bool)
      requires store.Valid()
      modifies this`error, this`loading, session`appUser, store`users, store`clock
      ensures store.Valid()
      ensures PasswordProblem(password, confirmPassword).Some? ==>
        error == PasswordProblem(password, confirmPassword).value
        && loading == old(loading) && store.users == old(store.users) && session.appUser == old(session.appUser)
      ensures PasswordProblem(password, confirmPassword).None? ==> !loading
      ensures PasswordProblem(password, confirmPassword).None? && providerError.Some? ==>
        error == providerError.value.GetOr(FALLBACK) && store.users == old(store.users)
      ensures PasswordProblem(password, confirmPassword).None? && providerError.None? ==>
        error == ""
        && store.users == old(store.users)[uid := Users.NewUser(uid, email, None, old(store.users) == map[], old(store.clock))]
      ensures PasswordProblem(password, confirmPassword).None? && providerError.None? && !readFails ==>
        session.appUser == Some(store.users[uid])
      ensures PasswordProblem(password, confirmPassword).None? && providerError.None? && readFails ==>
        session.appUser == None
    {
      error := "";
      if password != confirmPassword {
        error := MISMATCH;
        return;
      }
      if Utf16Length(password) < MIN_PASSWORD {
        error := TOO_SHORT;
        return;
      }
      loading := true;
      if providerError.Some? {
        error := providerError.value.GetOr(FALLBACK);
      } else {
        session.SignUp(store, uid, email, readFails);
      }
      loading := false;
    }

    /** `handleGoogleSignIn`: clear the error, then sign in through the
        provider's popup. When the provider accepts `account`, the session
        fetches or creates its record (`readFails` is a failing registry
        read, which the session catches itself); otherwise the thrown
        message, falling back to a fixed text, is shown. `loading` ends
        false either way. */
    method HandleGoogleSignIn(session: AuthSession, store: Store, account: AuthUser,
                              providerError: Option<Option<string>>, readFails: bool)
      requires store.Valid()
      modifies this`error, this`loading, session`appUser, store`users, store`clock
      ensures store.Valid() && !loading
      ensures providerError.Some? ==>
        error == providerError.value.GetOr(GOOGLE_FALLBACK)
        && store.users == old(store.users) && session.appUser == old(session.appUser)
      ensures providerError.None? ==> error == ""
      ensures providerError.None? && !readFails ==>
        account.uid in store.users && session.appUser == Some(store.users[account.uid])
      ensures providerError.None? && !readFails && account.uid in old(store.users) ==>
        store.users == old(store.users)
      ensures providerError.None? && readFails ==>
        session.appUser == None && store.users == old(store.users)
    {
      error := "";
      loading := true;
      if providerError.Some? {
        error := providerError.value.GetOr(GOOGLE_FALLBACK);
      } else {
        session.SignIn(store, account, readFails);
      }
      loading := false;
    }
  }
}
