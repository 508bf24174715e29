/**
 * `POST /api/auth/verify` (server/api/auth/verify.post.ts): consumes a
 * magic token, finds or creates the user and signs a session.
 */
module VerifyHandler {
  import opened Wrappers
  import opened Http
  import opened Jwt
  import opened FeatureRequestStore

  /** The success reply: `user: { id, email }` and `sessionToken`. */
  datatype Session = Session(userId: int, email: string, sessionToken: string)

  const SessionLifetime := "30d"

  /** The handler.  A missing, empty or non-string token gives
      TokenRequired with the store untouched.  Otherwise the token row is
      consumed; an unknown, used or expired token (or an empty bound email)
      gives TokenInvalidOrExpired.  On success the user is found or created
      for the bound email and the session is signed over that user's id and
      email for 30 days; afterwards the token is gone and the email is bound
      to the returned user id. */
  method Verify(table: FeatureRequestTable, token: BodyValue, env: Env, sign: Signer, now: int)
    returns (r: Result<Session, ApiError>)
    requires table.Valid()
    modifies table
    ensures table.Valid()
    ensures !(token.Str? && token.s != "") ==> r == Failure(TokenRequired) && table.db == old(table.db)
    ensures token.Str? && token.s != "" ==>
              var (remaining, email) := ConsumeToken(old(table.db.tokens), token.s, now);
              && (email.None? || email.value == "" ==>
                    r == Failure(TokenInvalidOrExpired) && table.db == old(table.db).(tokens := remaining))
              && (email.Some? && email.value != "" ==>
                    var (db', user) := UpsertUser(old(table.db).(tokens := remaining), email.value, now);
                    && table.db == db'
                    && r == Success(Session(user.id, user.email, sign(JwtPayload(user.id, user.email), JwtSecret(env), SessionLifetime))))
    ensures r.Success? ==>
              && FindToken(table.db.tokens, token.s).None?
              && UserByEmail(table.db.users, r.value.email).Some?
              && UserByEmail(table.db.users, r.value.email).value.id == r.value.userId
  {
    if !(token.Str? && token.s != "") {
      return Failure(TokenRequired);
    }
    var email := table.VerifyMagicToken(token.s, now);
    if email.None? || email.value == "" {
      return Failure(TokenInvalidOrExpired);
    }
    var user := table.GetOrCreateUser(email.value, now);
    var sessionToken := sign(JwtPayload(user.id, user.email), JwtSecret(env), SessionLifetime);
    r := Success(Session(user.id, user.email, sessionToken));
  }

  /** Presenting the session as a bearer credential identifies the user the
      verify step returned, for a verifier that accepts what the signer
      produced. */
  lemma SessionIdentifiesUser(s: Session, env: Env, sign: Signer, verify: Verifier)
    requires s.sessionToken == sign(JwtPayload(s.userId, s.email), JwtSecret(env), SessionLifetime)
    requires s.sessionToken != ""
    requires verify(s.sessionToken, JwtSecret(env)) == Some(JwtPayload(s.userId, s.email))
    ensures GetUserFromToken(Some(BearerPrefix + s.sessionToken), JwtSecret(env), verify) == Some(JwtPayload(s.userId, s.email))
  {
    SessionRoundTrip(JwtPayload(s.userId, s.email), JwtSecret(env), SessionLifetime, sign, verify);
  }
}
