/**
 * `POST /api/feature-requests` (server/api/feature-requests/index.post.ts):
 * the session gate, the body checks, the daily quota and the trimmed insert.
 */
module CreateHandler {
  import opened Wrappers
  import opened JsString
  import opened Http
  import opened Jwt
  import opened FeatureRequestStore

  /** The `{ title, description }` fields of the JSON body. */
  datatype RequestBody = RequestBody(title: BodyValue, description: BodyValue)

  const MaxTitleLength := 200
  const MaxDescriptionLength := 2000

  /** The opposite of `!v || typeof v !== "string" || v.trim().length === 0`. */
  predicate Filled(v: BodyValue) {
    v.Str? && v.s != "" && Trim(v.s) != ""
  }

  /** The early-return checks in their order: title present, description
      present, then the lengths of the untrimmed strings.  On success the
      trimmed title and description. */
  function ValidateBody(body: RequestBody): (r: Result<(string, string), ApiError>)
    ensures r.Success? <==>
              && Filled(body.title) && Filled(body.description)
              && |body.title.s| <= MaxTitleLength && |body.description.s| <= MaxDescriptionLength
    ensures r.Success? ==> r.value == (Trim(body.title.s), Trim(body.description.s))
  {
    if !Filled(body.title) then Failure(TitleRequired)
    else if !Filled(body.description) then Failure(DescriptionRequired)
    else if |body.title.s| > MaxTitleLength then Failure(TitleTooLong)
    else if |body.description.s| > MaxDescriptionLength then Failure(DescriptionTooLong)
    else Success((Trim(body.title.s), Trim(body.description.s)))
  }

  /** Which error a rejected body gets: a title problem always wins over a
      description problem, and an emptiness problem over a length problem. */
  lemma ValidationOrder(body: RequestBody)
    ensures !Filled(body.title) ==> ValidateBody(body) == Failure(TitleRequired)
    ensures Filled(body.title) && !Filled(body.description) ==> ValidateBody(body) == Failure(DescriptionRequired)
    ensures Filled(body.title) && Filled(body.description) && |body.title.s| > MaxTitleLength
            ==> ValidateBody(body) == Failure(TitleTooLong)
    ensures Filled(body.title) && Filled(body.description) && |body.title.s| <= MaxTitleLength
            && |body.description.s| > MaxDescriptionLength
            ==> ValidateBody(body) == Failure(DescriptionTooLong)
  {
  }

  /** What gets stored is never blank, carries no surrounding whitespace and
      respects the length limits. */
  lemma ValidatedFieldsAreClean(body: RequestBody)
    requires ValidateBody(body).Success?
    ensures var (title, description) := ValidateBody(body).value;
            && title != [] && description != []
            && !IsWhitespace(title[0]) && !IsWhitespace(title[|title| - 1])
            && !IsWhitespace(description[0]) && !IsWhitespace(description[|description| - 1])
            && |title| <= MaxTitleLength && |description| <= MaxDescriptionLength
  {
  }

  /** The length limit applies before trimming: a one-letter title padded
      with 200 spaces is refused although its trimmed form is one character. */
  lemma LengthCheckedBeforeTrim(description: string)
    requires Filled(Str(description)) && |description| <= MaxDescriptionLength
    ensures var padded := "a" + Spaces(MaxTitleLength);
            && Trim(padded) == "a"
            && ValidateBody(RequestBody(Str(padded), Str(description))) == Failure(TitleTooLong)
  {
    var padded := "a" + Spaces(MaxTitleLength);
    assert TrimStart(padded) == padded;
    TrimEndSpaces("a", MaxTitleLength);
    assert Trim(padded) == "a";
    assert Filled(Str(padded));
  }

  function Spaces(n: nat): (s: string)
    ensures |s| == n && forall k :: 0 <= k < n ==> s[k] == ' '
  {
    if n == 0 then "" else Spaces(n - 1) + " "
  }

  lemma {:induction false} TrimEndSpaces(s: string, n: nat)
    requires s != [] && !IsWhitespace(s[|s| - 1])
    ensures TrimEnd(s + Spaces(n)) == s
  {
    if n > 0 {
      assert s + Spaces(n) == (s + Spaces(n - 1)) + " ";
      assert (s + Spaces(n))[..|s + Spaces(n)| - 1] == s + Spaces(n - 1);
      TrimEndSpaces(s, n - 1);
    } else {
      assert s + Spaces(0) == s;
    }
  }

  /** The handler.  No failure changes the store.  Without a verified
      session: LoginRequired.  Then the body checks.  Then the daily quota,
      whose refusal quotes the count and the limit.  Otherwise exactly one
      pending request with no votes is inserted, holding the trimmed title
      and description and owned by the session's user, and returned; the
      user's requests in the trailing 24 hours then number at most 3. */
  method CreateFeatureRequest(table: FeatureRequestTable, authHeader: Option<string>, body: RequestBody,
                              env: Env, verify: Verifier, now: int)
    returns (r: Result<FeatureRequest, ApiError>)
    requires table.Valid()
    modifies table
    ensures table.Valid()
    ensures r.Failure? ==> table.db == old(table.db)
    ensures var caller := GetUserFromToken(authHeader, JwtSecret(env), verify);
            && (caller.None? ==> r == Failure(LoginRequired))
            && (caller.Some? && ValidateBody(body).Failure? ==> r == Failure(ValidateBody(body).error))
            && (caller.Some? && ValidateBody(body).Success? && !CheckRequestRateLimit(old(table.db), caller.value.userId, now).allowed
                ==> r == Failure(RequestQuotaExceeded(CheckRequestRateLimit(old(table.db), caller.value.userId, now).count, RequestDailyLimit)))
            && (r.Success? <==> caller.Some? && ValidateBody(body).Success? && CheckRequestRateLimit(old(table.db), caller.value.userId, now).allowed)
            && (r.Success? ==>
                  && r.value == FeatureRequest(old(table.db.nextRequestId), ValidateBody(body).value.0, ValidateBody(body).value.1,
                                               caller.value.userId, Pending, 0, now, now)
                  && table.db == old(table.db).(requests := old(table.db.requests) + [r.value],
                                                nextRequestId := old(table.db.nextRequestId) + 1)
                  && CountRequestsSince(table.db.requests, caller.value.userId, now - DayMs) <= RequestDailyLimit)
  {
    var caller := GetUserFromToken(authHeader, JwtSecret(env), verify);
    if caller.None? {
      return Failure(LoginRequired);
    }
    var fields := ValidateBody(body);
    if fields.Failure? {
      return Failure(fields.error);
    }
    var rateLimit := CheckRequestRateLimit(table.db, caller.value.userId, now);
    if !rateLimit.allowed {
      return Failure(RequestQuotaExceeded(rateLimit.count, rateLimit.limit));
    }
    var before := table.db.requests;
    var request := table.CreateRequest(fields.value.0, fields.value.1, caller.value.userId, now);
    CreatedRequestCounts(before, request, now - DayMs);
    r := Success(request);
  }
}
