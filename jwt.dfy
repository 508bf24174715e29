/**
 * Session tokens (server/utils/jwt.ts).  HS256 signing and verification
 * belong to a library and stay abstract: a signer maps (payload, secret,
 * lifetime) to a token, a verifier maps (token, secret) to the signed
 * payload or to None when verification fails.
 */
module Jwt {
  import opened Wrappers
  import opened JsString

  datatype JwtPayload = JwtPayload(userId: int, email: string)

  type Signer = (JwtPayload, string, string) -> string
  type Verifier = (string, string) -> Option<JwtPayload>

  const BearerPrefix := "Bearer "

  /** `extractToken`: no token for a missing or empty Authorization header;
      the text after "Bearer " when the header starts with it; otherwise the
      whole header.  The token is always a suffix of the header, and when
      anything was cut off it was exactly the "Bearer " prefix. */
  function ExtractToken(authHeader: Option<string>): (r: Option<string>)
    ensures r.None? <==> authHeader.None? || authHeader == Some("")
    ensures r.Some? ==> |r.value| <= |authHeader.value| && authHeader.value[|authHeader.value| - |r.value|..] == r.value
    ensures r.Some? && r.value != authHeader.value ==> authHeader.value == BearerPrefix + r.value
  {
    match authHeader
    case None => None
    case Some(h) =>
      if h == "" then None
      else if StartsWith(h, BearerPrefix) then
        assert h == BearerPrefix + h[|BearerPrefix|..];
        Some(h[|BearerPrefix|..])
      else Some(h)
  }

  /** A bearer header gives back exactly the token it carries. */
  lemma ExtractBearer(token: string)
    ensures ExtractToken(Some(BearerPrefix + token)) == Some(token)
  {
    assert (BearerPrefix + token)[..|BearerPrefix|] == BearerPrefix;
    assert (BearerPrefix + token)[|BearerPrefix|..] == token;
  }

  /** `getUserFromToken`: None when no token can be extracted or the token is
      empty; otherwise whatever verification yields, a failure being None
      (the thrown error is caught). */
  function GetUserFromToken(authHeader: Option<string>, secret: string, verify: Verifier): Option<JwtPayload> {
    match ExtractToken(authHeader)
    case None => None
    case Some(token) => if token == "" then None else verify(token, secret)
  }

  /** A header that is exactly "Bearer " identifies nobody. */
  lemma BareBearerIsAnonymous(secret: string, verify: Verifier)
    ensures GetUserFromToken(Some(BearerPrefix), secret, verify) == None
  {
    ExtractBearer("");
    assert BearerPrefix + "" == BearerPrefix;
  }

  /** Session round trip: presenting a signed session token as a bearer
      credential identifies the payload it was signed over, for any
      signer/verifier pair that accepts what the signer produced. */
  lemma SessionRoundTrip(p: JwtPayload, secret: string, lifetime: string, sign: Signer, verify: Verifier)
    requires sign(p, secret, lifetime) != ""
    requires verify(sign(p, secret, lifetime), secret) == Some(p)
    ensures GetUserFromToken(Some(BearerPrefix + sign(p, secret, lifetime)), secret, verify) == Some(p)
  {
    ExtractBearer(sign(p, secret, lifetime));
  }

  /** Whatever `getUserFromToken` returns came from the verifier. */
  lemma IdentifiedOnlyByVerifier(authHeader: Option<string>, secret: string, verify: Verifier)
    ensures var r := GetUserFromToken(authHeader, secret, verify);
            r.Some? ==> exists token :: token != "" && ExtractToken(authHeader) == Some(token) && verify(token, secret) == r
  {
  }
}
