/** The request authentication of src/middleware/auth.middleware.ts: the
    bearer token is taken as the user id, and the user's address is built
    with the default domain. */
module Auth {
  import opened Common
  import Text
  import CryptoUtils

  const BearerPrefix: string := "Bearer "

  /** The user attached to an authenticated request. */
  datatype AuthUser = AuthUser(userId: string, emailAlias: string)

  /** `authHeader.replace('Bearer ', '')` */
  function TokenOf(header: string): (token: string)
    ensures |BearerPrefix| <= |header| && header[..|BearerPrefix|] == BearerPrefix ==> token == header[|BearerPrefix|..]
    ensures !Text.Contains(header, BearerPrefix) ==> token == header
    ensures Text.Contains(header, BearerPrefix) ==>
      var i := Text.IndexOf(header, BearerPrefix).value;
      token == header[..i] + header[i + |BearerPrefix|..]
  {
    Text.RemoveFirst(header, BearerPrefix)
  }

  /** `u-${token}@newsletters.coretent.app` */
  function UserFor(token: string): (u: AuthUser)
    ensures u.userId == token
    ensures u.emailAlias == CryptoUtils.GenerateEmailAlias(token, None)
  {
    AuthUser(token, "u-" + token + "@" + CryptoUtils.DefaultAliasDomain)
  }

  /** `authenticateUser`: 401 without a header or with an empty token,
      otherwise the request carries the token's user. */
  function AuthenticateUser(authorization: Option<string>): (r: Result<AuthUser>)
    ensures !Truthy(authorization) ==> r == Err(Unauthorized("No authorization header provided"))
    ensures Truthy(authorization) && TokenOf(authorization.value) == "" ==>
      r == Err(Unauthorized("Invalid authorization token"))
    ensures r.Ok? <==> Truthy(authorization) && TokenOf(authorization.value) != ""
    ensures r.Ok? ==> r.value == UserFor(TokenOf(authorization.value))
  {
    if !Truthy(authorization) then Err(Unauthorized("No authorization header provided"))
    else
      var token := TokenOf(authorization.value);
      if token == "" then Err(Unauthorized("Invalid authorization token"))
      else Ok(UserFor(token))
  }

  /** `optionalAuth`: never refuses; attaches a user when it can. */
  function OptionalAuth(authorization: Option<string>): (u: Option<AuthUser>)
    ensures u.Some? <==> Truthy(authorization) && TokenOf(authorization.value) != ""
    ensures u.Some? ==> u.value == UserFor(TokenOf(authorization.value))
  {
    if Truthy(authorization) then
      var token := TokenOf(authorization.value);
      if token != "" then Some(UserFor(token)) else None
    else None
  }

  /** The optional variant attaches exactly the user the strict one accepts. */
  lemma OptionalAgreesWithStrict(authorization: Option<string>)
    ensures OptionalAuth(authorization).Some? <==> AuthenticateUser(authorization).Ok?
    ensures AuthenticateUser(authorization).Ok? ==>
      OptionalAuth(authorization) == Some(AuthenticateUser(authorization).value)
  {
  }

  /** `Bearer <id>` authenticates as `<id>`, and the attached address routes
      incoming mail back to that id. */
  lemma BearerRoundTrip(userId: string)
    requires CryptoUtils.IsAliasId(userId)
    ensures AuthenticateUser(Some(BearerPrefix + userId)) == Ok(UserFor(userId))
    ensures CryptoUtils.ExtractUserId(UserFor(userId).emailAlias) == Some(userId)
  {
    assert (BearerPrefix + userId)[..|BearerPrefix|] == BearerPrefix;
    assert (BearerPrefix + userId)[|BearerPrefix|..] == userId;
    CryptoUtils.AliasRoundTrip(userId, None);
  }
}
