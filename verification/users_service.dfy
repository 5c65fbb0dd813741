/** The user registry of src/modules/users/users.service.ts: registration
    (idempotent, minting the receiving address once) and the address lookup. */
module Users {
  import opened Common
  import opened Store
  import CryptoUtils

  /** `registerUser(userId)`. An already registered user gets the stored
      address back and nothing is written; a new user is stored with a fresh
      `u-<userId>@<domain>` address. `envDomain` is `MAILGUN_DOMAIN`. */
  function RegisterUser(s: Store, userId: string, envDomain: Option<string>): (st: Step<User>)
    ensures st.result.Ok?
    ensures userId in s.users ==> st == Step(Ok(s.users[userId]), s)
    ensures userId !in s.users ==>
      var u := User(userId, CryptoUtils.GenerateEmailAlias(userId, envDomain));
      st == Step(Ok(u), s.(users := s.users[userId := u]))
  {
    if userId in s.users then Step(Ok(s.users[userId]), s)
    else
      var u := User(userId, CryptoUtils.GenerateEmailAlias(userId, envDomain));
      Step(Ok(u), s.(users := s.users[userId := u]))
  }

  /** `getUserEmailAlias(userId)` */
  function GetUserEmailAlias(s: Store, userId: string): (r: Result<string>)
    ensures r.Ok? <==> userId in s.users
    ensures r.Ok? ==> r.value == s.users[userId].emailAlias
    ensures r.Err? ==> r.error == NotFound("User not found: " + userId)
  {
    if userId in s.users then Ok(s.users[userId].emailAlias)
    else Err(NotFound("User not found: " + userId))
  }

  /** Registering twice is registering once: same answer, same store. */
  lemma RegisterIdempotent(s: Store, userId: string, d1: Option<string>, d2: Option<string>)
    ensures var first := RegisterUser(s, userId, d1);
      RegisterUser(first.store, userId, d2) == Step(first.result, first.store)
  {
  }

  /** After registration the lookup answers with the address registration
      returned, and that address routes back to the user. */
  lemma RegisterThenLookup(s: Store, userId: string, envDomain: Option<string>)
    requires Valid(s)
    requires forall u :: u in s.users ==> s.users[u].emailAlias == CryptoUtils.GenerateEmailAlias(u, envDomain)
    requires CryptoUtils.IsAliasId(userId)
    ensures var st := RegisterUser(s, userId, envDomain);
      && Valid(st.store)
      && GetUserEmailAlias(st.store, userId) == Ok(st.result.value.emailAlias)
      && CryptoUtils.ExtractUserId(st.result.value.emailAlias) == Some(userId)
  {
    CryptoUtils.AliasRoundTrip(userId, envDomain);
  }
}
