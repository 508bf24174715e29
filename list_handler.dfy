/**
 * `GET /api/feature-requests` (server/api/feature-requests/index.get.ts):
 * query defaults, the optional caller, the store query and the masking of
 * owner emails.
 */
module ListHandler {
  import opened Wrappers
  import opened JsString
  import opened Http
  import opened Jwt
  import opened FeatureRequestStore

  /** The query string; an absent parameter is None. */
  datatype ListQuery = ListQuery(status: Option<string>, sort: Option<string>, limit: Option<string>, offset: Option<string>)

  /** The `{ success: true, data, total, offset, limit }` reply. */
  datatype ListResponse = ListResponse(data: seq<RequestWithUser>, total: nat, offset: int, limit: int)

  const DefaultLimit := 50

  /** `maskEmail`: split on '@'; when there is no '@', or the part before the
      first '@' or the part between the first and second '@' is empty, the
      input comes back unchanged; otherwise the first character of the local
      part, "***@", and that second part. */
  function MaskEmail(email: string): (r: string)
    ensures '@' !in email ==> r == email
  {
    match IndexOf(email, '@')
    case None => email
    case Some(at) =>
      var local := email[..at];
      var domain := DomainPart(email[at + 1..]);
      if local == "" || domain == "" then email else [local[0]] + "***@" + domain
  }

  /** The second element of `split("@")`: the text up to the next '@'. */
  function DomainPart(rest: string): (d: string)
    ensures '@' !in d && |d| <= |rest| && d == rest[..|d|]
    ensures '@' !in rest ==> d == rest
  {
    match IndexOf(rest, '@')
    case None => rest
    case Some(j) => rest[..j]
  }

  /** The documented example. */
  lemma MaskEmailExample(local: string, domain: string)
    requires local == "foo" && domain == "bar.com"
    ensures MaskEmail(local + "@" + domain) == "f***@" + domain
  {
    assert forall k :: 0 <= k < |local| ==> local[k] != '@';
    assert forall k :: 0 <= k < |domain| ==> domain[k] != '@';
    MaskSingleAt(local, domain);
    assert [local[0]] + "***@" == "f***@";
  }

  /** An address with a single '@' and both parts non-empty keeps its
      domain and all but the first character of its local part is hidden. */
  lemma MaskSingleAt(local: string, domain: string)
    requires local != [] && domain != [] && '@' !in local && '@' !in domain
    ensures MaskEmail(local + "@" + domain) == [local[0]] + "***@" + domain
  {
    var s := local + "@" + domain;
    assert s[..|local|] == local && s[|local|] == '@';
    assert IndexOf(s, '@') == Some(|local|);
    assert s[|local| + 1..] == domain;
  }

  /** With several '@', only the segment between the first and the second
      survives: `local@domain@rest` masks like `local@domain`. */
  lemma MaskKeepsSecondSegmentOnly(local: string, domain: string, rest: string)
    requires local != [] && domain != [] && '@' !in local && '@' !in domain
    ensures MaskEmail(local + "@" + domain + "@" + rest) == [local[0]] + "***@" + domain
  {
    var s := local + "@" + domain + "@" + rest;
    IndexOfFirst(local, '@', domain + "@" + rest);
    assert s == local + ['@'] + (domain + "@" + rest);
    assert s[|local| + 1..] == domain + ['@'] + rest;
    IndexOfFirst(domain, '@', rest);
    assert s[..|local|] == local;
  }

  /** An empty part before the first '@', or between the first and the
      second, leaves the address as it is: "@x@y", "x@" and "x@@y". */
  lemma MaskEmptyPartUnchanged(local: string, rest: string)
    requires '@' !in local
    ensures MaskEmail("@" + rest) == "@" + rest
    ensures MaskEmail(local + "@") == local + "@"
    ensures MaskEmail(local + "@@" + rest) == local + "@@" + rest
  {
    IndexOfFirst(local, '@', []);
    assert local + "@" == local + ['@'] + [];
    assert (local + "@")[|local| + 1..] == [];
    var s := local + "@@" + rest;
    IndexOfFirst(local, '@', "@" + rest);
    assert s == local + ['@'] + ("@" + rest);
    assert s[|local| + 1..] == "@" + rest;
    IndexOfFirst([], '@', rest);
    assert "@" + rest == [] + ['@'] + rest;
  }

  /** Two addresses that share the first character and the domain mask to
      the same text: the rest of the local part is not revealed. */
  lemma MaskHidesLocalPart(local1: string, local2: string, domain: string)
    requires local1 != [] && local2 != [] && local1[0] == local2[0]
    requires '@' !in local1 && '@' !in local2 && domain != [] && '@' !in domain
    ensures MaskEmail(local1 + "@" + domain) == MaskEmail(local2 + "@" + domain)
  {
    MaskSingleAt(local1, domain);
    MaskSingleAt(local2, domain);
  }

  /** Masking a masked address changes nothing more. */
  lemma MaskEmailIdempotent(email: string)
    ensures MaskEmail(MaskEmail(email)) == MaskEmail(email)
  {
    match IndexOf(email, '@')
    case None =>
    case Some(at) =>
      var local := email[..at];
      var domain := DomainPart(email[at + 1..]);
      if local != "" && domain != "" {
        assert local[0] in local;
        MaskOfMasked(local[0], domain);
      }
  }

  /** A masked address is its own mask. */
  lemma MaskOfMasked(c: char, domain: string)
    requires c != '@' && domain != [] && '@' !in domain
    ensures MaskEmail([c] + "***@" + domain) == [c] + "***@" + domain
  {
    var stars := [c] + "***";
    assert '@' !in stars;
    MaskSingleAt(stars, domain);
    assert stars + "@" + domain == [c] + "***@" + domain;
  }

  /** `(query.status as string) || "all"`. */
  function ResolveStatus(status: Option<string>): string {
    EnvOr(status, "all")
  }

  /** `(query.sort as string) || "votes"`. */
  function ResolveSort(sort: Option<string>): string {
    EnvOr(sort, "votes")
  }

  /** `Number.parseInt(query.limit) || 50`: NaN and 0 both fall back to 50. */
  function ResolveLimit(limit: Option<string>): (n: int)
    ensures n != 0
  {
    var parsed := if limit.None? then None else ParseInt(limit.value);
    if parsed.None? || parsed.value == 0 then DefaultLimit else parsed.value
  }

  /** `Number.parseInt(query.offset) || 0`. */
  function ResolveOffset(offset: Option<string>): int {
    var parsed := if offset.None? then None else ParseInt(offset.value);
    if parsed.None? then 0 else parsed.value
  }

  /** A decimal limit is taken as written, except that "0" means 50; a
      decimal offset is taken as written. */
  lemma ResolveDecimal(n: nat)
    ensures ResolveLimit(Some(DecimalString(n))) == if n == 0 then DefaultLimit else n
    ensures ResolveOffset(Some(DecimalString(n))) == n
  {
    ParseIntDecimal(n);
  }

  /** A missing or non-numeric limit gives 50, a missing or non-numeric
      offset gives 0. */
  lemma ResolveNonNumeric(s: string)
    requires s == [] || (!IsWhitespace(s[0]) && s[0] != '+' && s[0] != '-' && !IsDigitIn(s[0], 10))
    ensures ResolveLimit(Some(s)) == DefaultLimit && ResolveLimit(None) == DefaultLimit
    ensures ResolveOffset(Some(s)) == 0 && ResolveOffset(None) == 0
  {
    ParseIntNoDigits(s);
  }

  /** `requests.map(r => ({ ...r, user_email: maskEmail(r.user_email) }))`. */
  function MaskAll(rows: seq<RequestWithUser>): (r: seq<RequestWithUser>)
    ensures |r| == |rows|
    ensures forall i :: 0 <= i < |r| ==> r[i] == rows[i].(user_email := MaskEmail(rows[i].user_email))
  {
    if rows == [] then [] else [rows[0].(user_email := MaskEmail(rows[0].user_email))] + MaskAll(rows[1..])
  }

  /** The store query the handler issues. */
  function ListParamsFor(query: ListQuery, caller: Option<JwtPayload>): ListParams {
    ListParams(Some(ResolveStatus(query.status)), Some(ResolveSort(query.sort)),
               Some(ResolveLimit(query.limit)), Some(ResolveOffset(query.offset)),
               if caller.None? then None else Some(caller.value.userId))
  }

  /** The handler: the reply echoes the resolved offset and limit and the
      store's total; the rows are the store's page in the same order with
      only `user_email` masked.  Every row is a status-matching request of
      the store, in descending key order, whose owner's email appears
      masked, and `has_voted` says whether the verified caller (if any, and
      with a non-zero id) has a vote row on it. */
  function ListRequests(db: Db, query: ListQuery, authHeader: Option<string>, env: Env, verify: Verifier): (r: ListResponse)
    ensures var page := GetRequests(db, ListParamsFor(query, GetUserFromToken(authHeader, JwtSecret(env), verify)));
            r.data == MaskAll(page.requests) && r.total == page.total
    ensures r.limit == ResolveLimit(query.limit) && r.offset == ResolveOffset(query.offset)
    ensures r.limit > 0 ==> |r.data| <= r.limit
    ensures r.total == |FilterStatus(db.requests, ResolveStatus(query.status))|
    ensures SortedDesc(r.data, ResolveSort(query.sort) == "votes")
    ensures var caller := GetUserFromToken(authHeader, JwtSecret(env), verify);
            forall x :: x in r.data ==>
              && x.request in db.requests
              && StatusMatches(ResolveStatus(query.status), x.request)
              && UserById(db.users, x.request.user_id).Some?
              && x.user_email == MaskEmail(UserById(db.users, x.request.user_id).value.email)
              && x.has_voted == (caller.Some? && caller.value.userId != 0 && HasVote(db.votes, x.request.id, caller.value.userId))
  {
    var caller := GetUserFromToken(authHeader, JwtSecret(env), verify);
    var params := ListParamsFor(query, caller);
    var page := GetRequests(db, params);
    MaskedRows(page.requests, db, params);
    ListResponse(MaskAll(page.requests), page.total, ResolveOffset(query.offset), ResolveLimit(query.limit))
  }

  /** Masking keeps the order of the keys and every fact about a row except
      its email, which becomes the masked owner email. */
  lemma MaskedRows(rows: seq<RequestWithUser>, db: Db, params: ListParams)
    requires params.status.Some?
    requires forall y :: y in rows ==>
               && y.request in db.requests
               && StatusMatches(params.status.value, y.request)
               && IsJoined(y, db.users, db.votes, params.userId)
    ensures forall b :: SortedDesc(rows, b) ==> SortedDesc(MaskAll(rows), b)
    ensures forall x :: x in MaskAll(rows) ==>
              && x.request in db.requests
              && StatusMatches(params.status.value, x.request)
              && UserById(db.users, x.request.user_id).Some?
              && x.user_email == MaskEmail(UserById(db.users, x.request.user_id).value.email)
              && x.has_voted == VotedBy(db.votes, x.request.id, params.userId)
  {
    var masked := MaskAll(rows);
    forall x | x in masked
      ensures && x.request in db.requests
              && StatusMatches(params.status.value, x.request)
              && UserById(db.users, x.request.user_id).Some?
              && x.user_email == MaskEmail(UserById(db.users, x.request.user_id).value.email)
              && x.has_voted == VotedBy(db.votes, x.request.id, params.userId)
    {
      var i :| 0 <= i < |masked| && masked[i] == x;
      assert rows[i] in rows;
    }
  }

  /** Without a verified caller no row is marked as voted. */
  lemma AnonymousSeesNoVotes(db: Db, query: ListQuery, env: Env, verify: Verifier)
    ensures forall x :: x in ListRequests(db, query, None, env, verify).data ==> !x.has_voted
  {
  }
}
