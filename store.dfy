/**
 * The feature-request store: four tables (users, requests, votes,
 * magic_tokens), the queries over them and the class whose methods issue
 * the inserts, updates and deletes one statement at a time.
 *
 * The clock (`Date.now()`) and the random token (`crypto.randomUUID()`) are
 * parameters.  Every statement runs on its own, in sequence; there are no
 * transactions and no interleavings.
 */
module FeatureRequestStore {
  import opened Wrappers

  const TokenLifetimeMs: int := 15 * 60 * 1000
  const DayMs: int := 24 * 60 * 60 * 1000
  const RequestDailyLimit: nat := 3
  const VoteDailyLimit: nat := 20

  // ---------------------------------------------------------------------
  // Rows

  datatype Status = Pending | InProgress | Completed | Rejected

  /** The text stored in the `status` column. */
  function StatusText(s: Status): string {
    match s
    case Pending => "pending"
    case InProgress => "in_progress"
    case Completed => "completed"
    case Rejected => "rejected"
  }

  datatype User = User(id: int, email: string, created_at: int, last_login: int)

  datatype FeatureRequest = FeatureRequest(
    id: int, title: string, description: string, user_id: int,
    status: Status, vote_count: int, created_at: int, updated_at: int)

  datatype Vote = Vote(id: int, request_id: int, user_id: int, created_at: int)

  datatype MagicToken = MagicToken(token: string, email: string, expires_at: int, created_at: int)

  /** The database: the rows of each table in insertion order, and the next
      AUTOINCREMENT id of each table that has one. */
  datatype Db = Db(
    users: seq<User>, requests: seq<FeatureRequest>, votes: seq<Vote>, tokens: seq<MagicToken>,
    nextUserId: int, nextRequestId: int, nextVoteId: int)

  // ---------------------------------------------------------------------
  // Votes

  predicate IsPair(v: Vote, requestId: int, userId: int) {
    v.request_id == requestId && v.user_id == userId
  }

  /** `EXISTS (SELECT 1 FROM votes WHERE request_id = ? AND user_id = ?)`. */
  predicate HasVote(votes: seq<Vote>, requestId: int, userId: int) {
    votes != [] && (IsPair(votes[0], requestId, userId) || HasVote(votes[1..], requestId, userId))
  }

  /** The `UNIQUE(request_id, user_id)` constraint. */
  predicate UniquePairs(votes: seq<Vote>) {
    votes == [] || (!HasVote(votes[1..], votes[0].request_id, votes[0].user_id) && UniquePairs(votes[1..]))
  }

  /** `SELECT COUNT(*) FROM votes WHERE request_id = ?`. */
  function CountVotes(votes: seq<Vote>, requestId: int): nat {
    if votes == [] then 0
    else (if votes[0].request_id == requestId then 1 else 0) + CountVotes(votes[1..], requestId)
  }

  /** `DELETE FROM votes WHERE request_id = ? AND user_id = ?`. */
  function RemoveVote(votes: seq<Vote>, requestId: int, userId: int): (r: seq<Vote>)
    ensures |r| <= |votes|
    ensures forall v :: v in r ==> v in votes && !IsPair(v, requestId, userId)
  {
    if votes == [] then []
    else if IsPair(votes[0], requestId, userId) then RemoveVote(votes[1..], requestId, userId)
    else [votes[0]] + RemoveVote(votes[1..], requestId, userId)
  }

  /** The vote rows after one toggle: an existing vote is deleted, otherwise
      a new row with the next id is appended. */
  function ToggleVotes(votes: seq<Vote>, requestId: int, userId: int, voteId: int, now: int): seq<Vote> {
    if HasVote(votes, requestId, userId) then RemoveVote(votes, requestId, userId)
    else votes + [Vote(voteId, requestId, userId, now)]
  }

  lemma {:induction false} HasVoteAppend(votes: seq<Vote>, x: Vote, requestId: int, userId: int)
    ensures HasVote(votes + [x], requestId, userId) <==> HasVote(votes, requestId, userId) || IsPair(x, requestId, userId)
  {
    if votes != [] {
      assert (votes + [x])[1..] == votes[1..] + [x];
      HasVoteAppend(votes[1..], x, requestId, userId);
    }
  }

  lemma {:induction false} CountVotesAppend(votes: seq<Vote>, x: Vote, requestId: int)
    ensures CountVotes(votes + [x], requestId) == CountVotes(votes, requestId) + (if x.request_id == requestId then 1 else 0)
  {
    if votes != [] {
      assert (votes + [x])[1..] == votes[1..] + [x];
      CountVotesAppend(votes[1..], x, requestId);
    }
  }

  /** Appending a pair that is not yet present keeps the pairs unique. */
  lemma {:induction false} UniquePairsAppend(votes: seq<Vote>, x: Vote)
    requires UniquePairs(votes) && !HasVote(votes, x.request_id, x.user_id)
    ensures UniquePairs(votes + [x])
  {
    if votes != [] {
      assert (votes + [x])[1..] == votes[1..] + [x];
      HasVoteAppend(votes[1..], x, votes[0].request_id, votes[0].user_id);
      UniquePairsAppend(votes[1..], x);
    }
  }

  /** After the delete, exactly the deleted pair is gone. */
  lemma {:induction false} HasVoteRemove(votes: seq<Vote>, requestId: int, userId: int, r: int, u: int)
    ensures HasVote(RemoveVote(votes, requestId, userId), r, u)
            <==> HasVote(votes, r, u) && !(r == requestId && u == userId)
  {
    if votes != [] {
      HasVoteRemove(votes[1..], requestId, userId, r, u);
    }
  }

  lemma {:induction false} UniquePairsRemove(votes: seq<Vote>, requestId: int, userId: int)
    requires UniquePairs(votes)
    ensures UniquePairs(RemoveVote(votes, requestId, userId))
  {
    if votes != [] {
      UniquePairsRemove(votes[1..], requestId, userId);
      HasVoteRemove(votes[1..], requestId, userId, votes[0].request_id, votes[0].user_id);
    }
  }

  lemma {:induction false} RemoveAbsent(votes: seq<Vote>, requestId: int, userId: int)
    requires !HasVote(votes, requestId, userId)
    ensures RemoveVote(votes, requestId, userId) == votes
  {
    if votes != [] {
      RemoveAbsent(votes[1..], requestId, userId);
    }
  }

  /** With unique pairs, the delete removes one row of `requestId` when the
      vote exists and none otherwise; other requests keep their counts. */
  lemma {:induction false} CountVotesRemove(votes: seq<Vote>, requestId: int, userId: int, r: int)
    requires UniquePairs(votes)
    ensures CountVotes(RemoveVote(votes, requestId, userId), r)
            == CountVotes(votes, r) - (if r == requestId && HasVote(votes, requestId, userId) then 1 else 0)
  {
    if votes != [] {
      CountVotesRemove(votes[1..], requestId, userId, r);
      if IsPair(votes[0], requestId, userId) {
        RemoveAbsent(votes[1..], requestId, userId);
      }
    }
  }

  /** One toggle flips the user's vote on that request, leaves every other
      (request, user) pair alone, keeps pairs unique and moves the count of
      that request by one. */
  lemma ToggleVotesEffect(votes: seq<Vote>, requestId: int, userId: int, voteId: int, now: int)
    requires UniquePairs(votes)
    ensures var t := ToggleVotes(votes, requestId, userId, voteId, now);
            && UniquePairs(t)
            && HasVote(t, requestId, userId) == !HasVote(votes, requestId, userId)
            && (forall r, u :: !(r == requestId && u == userId) ==> HasVote(t, r, u) == HasVote(votes, r, u))
            && (forall r :: CountVotes(t, r) == CountVotes(votes, r)
                  + (if r != requestId then 0 else if HasVote(votes, requestId, userId) then -1 else 1))
  {
    var x := Vote(voteId, requestId, userId, now);
    if HasVote(votes, requestId, userId) {
      UniquePairsRemove(votes, requestId, userId);
      forall r, u ensures HasVote(RemoveVote(votes, requestId, userId), r, u)
                          <==> HasVote(votes, r, u) && !(r == requestId && u == userId) {
        HasVoteRemove(votes, requestId, userId, r, u);
      }
      forall r ensures CountVotes(RemoveVote(votes, requestId, userId), r)
                       == CountVotes(votes, r) - (if r == requestId then 1 else 0) {
        CountVotesRemove(votes, requestId, userId, r);
      }
    } else {
      UniquePairsAppend(votes, x);
      forall r, u ensures HasVote(votes + [x], r, u) <==> HasVote(votes, r, u) || IsPair(x, r, u) {
        HasVoteAppend(votes, x, r, u);
      }
      forall r ensures CountVotes(votes + [x], r) == CountVotes(votes, r) + (if r == requestId then 1 else 0) {
        CountVotesAppend(votes, x, r);
      }
    }
  }

  /** Toggling twice restores every (request, user) pair and every count; a
      vote followed by an unvote restores the very same rows. */
  lemma ToggleVotesTwice(votes: seq<Vote>, requestId: int, userId: int, id1: int, id2: int, t1: int, t2: int)
    requires UniquePairs(votes)
    ensures var once := ToggleVotes(votes, requestId, userId, id1, t1);
            var twice := ToggleVotes(once, requestId, userId, id2, t2);
            && (forall r, u :: HasVote(twice, r, u) == HasVote(votes, r, u))
            && (forall r :: CountVotes(twice, r) == CountVotes(votes, r))
            && (!HasVote(votes, requestId, userId) ==> twice == votes)
  {
    var once := ToggleVotes(votes, requestId, userId, id1, t1);
    ToggleVotesEffect(votes, requestId, userId, id1, t1);
    ToggleVotesEffect(once, requestId, userId, id2, t2);
    if !HasVote(votes, requestId, userId) {
      RemoveAbsent(votes, requestId, userId);
      RemoveAppendedVote(votes, Vote(id1, requestId, userId, t1));
    }
  }

  lemma {:induction false} RemoveAppendedVote(votes: seq<Vote>, x: Vote)
    requires !HasVote(votes, x.request_id, x.user_id)
    ensures RemoveVote(votes + [x], x.request_id, x.user_id) == votes
  {
    if votes == [] {
      assert [x][1..] == [];
    } else {
      assert (votes + [x])[1..] == votes[1..] + [x];
      RemoveAppendedVote(votes[1..], x);
    }
  }

  // ---------------------------------------------------------------------
  // Requests

  /** `SELECT * FROM requests WHERE id = ?`: the first row with that id. */
  function RequestById(requests: seq<FeatureRequest>, id: int): (r: Option<FeatureRequest>)
    ensures r.Some? ==> r.value in requests && r.value.id == id
    ensures r.None? ==> forall q :: q in requests ==> q.id != id
  {
    if requests == [] then None
    else if requests[0].id == id then Some(requests[0])
    else RequestById(requests[1..], id)
  }

  function Bumped(q: FeatureRequest, id: int, delta: int, now: int): FeatureRequest {
    if q.id == id then q.(vote_count := q.vote_count + delta, updated_at := now) else q
  }

  /** `UPDATE requests SET vote_count = vote_count + delta, updated_at = now WHERE id = ?`. */
  function AdjustVoteCount(requests: seq<FeatureRequest>, id: int, delta: int, now: int): (r: seq<FeatureRequest>)
    ensures |r| == |requests|
    ensures forall i :: 0 <= i < |r| ==> r[i] == Bumped(requests[i], id, delta, now)
  {
    if requests == [] then [] else [Bumped(requests[0], id, delta, now)] + AdjustVoteCount(requests[1..], id, delta, now)
  }

  lemma {:induction false} RequestByIdAdjusted(requests: seq<FeatureRequest>, id: int, delta: int, now: int, x: int)
    ensures RequestById(AdjustVoteCount(requests, id, delta, now), x)
            == match RequestById(requests, x)
               case None => None
               case Some(q) => Some(Bumped(q, id, delta, now))
  {
    if requests != [] {
      assert AdjustVoteCount(requests, id, delta, now)[1..] == AdjustVoteCount(requests[1..], id, delta, now);
      RequestByIdAdjusted(requests[1..], id, delta, now, x);
    }
  }

  // ---------------------------------------------------------------------
  // Users

  /** `SELECT * FROM users WHERE email = ?`. */
  function UserByEmail(users: seq<User>, email: string): (r: Option<User>)
    ensures r.Some? ==> r.value in users && r.value.email == email
    ensures r.None? ==> forall u :: u in users ==> u.email != email
  {
    if users == [] then None
    else if users[0].email == email then Some(users[0])
    else UserByEmail(users[1..], email)
  }

  /** `UPDATE users SET last_login = ? WHERE id = ?`. */
  function SetLastLogin(users: seq<User>, id: int, now: int): (r: seq<User>)
    ensures |r| == |users|
    ensures forall i :: 0 <= i < |r| ==> r[i] == if users[i].id == id then users[i].(last_login := now) else users[i]
  {
    if users == [] then []
    else [if users[0].id == id then users[0].(last_login := now) else users[0]] + SetLastLogin(users[1..], id, now)
  }

  // ---------------------------------------------------------------------
  // Magic tokens

  /** `SELECT * FROM magic_tokens WHERE token = ?`. */
  function FindToken(tokens: seq<MagicToken>, token: string): (r: Option<MagicToken>)
    ensures r.Some? ==> r.value in tokens && r.value.token == token
    ensures r.None? ==> forall m :: m in tokens ==> m.token != token
  {
    if tokens == [] then None
    else if tokens[0].token == token then Some(tokens[0])
    else FindToken(tokens[1..], token)
  }

  /** The `token TEXT PRIMARY KEY` constraint. */
  predicate UniqueTokens(tokens: seq<MagicToken>) {
    tokens == [] || (FindToken(tokens[1..], tokens[0].token).None? && UniqueTokens(tokens[1..]))
  }

  /** `DELETE FROM magic_tokens WHERE token = ?`. */
  function RemoveToken(tokens: seq<MagicToken>, token: string): (r: seq<MagicToken>)
    ensures forall m :: m in r <==> m in tokens && m.token != token
  {
    if tokens == [] then []
    else if tokens[0].token == token then RemoveToken(tokens[1..], token)
    else [tokens[0]] + RemoveToken(tokens[1..], token)
  }

  /** `DELETE FROM magic_tokens WHERE expires_at < now`: the rows kept. */
  function KeepUnexpired(tokens: seq<MagicToken>, now: int): (r: seq<MagicToken>)
    ensures |r| <= |tokens|
    ensures forall m :: m in r <==> m in tokens && m.expires_at >= now
  {
    if tokens == [] then []
    else if tokens[0].expires_at < now then KeepUnexpired(tokens[1..], now)
    else [tokens[0]] + KeepUnexpired(tokens[1..], now)
  }

  /** What verifying `token` at time `now` leaves in the table and returns:
      an unknown token changes nothing and yields None; a known one is
      deleted, and its email is returned unless `now` is past its expiry. */
  function ConsumeToken(tokens: seq<MagicToken>, token: string, now: int): (seq<MagicToken>, Option<string>) {
    match FindToken(tokens, token)
    case None => (tokens, None)
    case Some(m) => (RemoveToken(tokens, token), if now > m.expires_at then None else Some(m.email))
  }

  lemma {:induction false} UniqueTokensRemove(tokens: seq<MagicToken>, token: string)
    requires UniqueTokens(tokens)
    ensures UniqueTokens(RemoveToken(tokens, token))
  {
    if tokens != [] {
      UniqueTokensRemove(tokens[1..], token);
    }
  }

  lemma {:induction false} UniqueTokensKeep(tokens: seq<MagicToken>, now: int)
    requires UniqueTokens(tokens)
    ensures UniqueTokens(KeepUnexpired(tokens, now))
  {
    if tokens != [] {
      UniqueTokensKeep(tokens[1..], now);
    }
  }

  lemma {:induction false} UniqueTokensAppend(tokens: seq<MagicToken>, m: MagicToken)
    requires UniqueTokens(tokens) && FindToken(tokens, m.token).None?
    ensures UniqueTokens(tokens + [m])
  {
    if tokens != [] {
      assert (tokens + [m])[1..] == tokens[1..] + [m];
      UniqueTokensAppend(tokens[1..], m);
    }
  }

  /** Under the primary key, two rows with the same token are the same row. */
  lemma {:induction false} SameTokenSameRow(tokens: seq<MagicToken>, a: MagicToken, b: MagicToken)
    requires UniqueTokens(tokens) && a in tokens && b in tokens && a.token == b.token
    ensures a == b
  {
    if a != tokens[0] && b != tokens[0] {
      SameTokenSameRow(tokens[1..], a, b);
    }
  }

  /** A single-use token: once verified (whatever the outcome), it can never
      yield an email again. */
  lemma TokenSingleUse(tokens: seq<MagicToken>, token: string, now1: int, now2: int)
    ensures var (after, _) := ConsumeToken(tokens, token, now1);
            ConsumeToken(after, token, now2) == (after, None)
  {
  }

  /** The row `createMagicToken` stores at time `t0` verifies up to and
      including `t0 + 15 min`, and fails one millisecond later. */
  lemma TokenExpiryBoundary(tokens: seq<MagicToken>, token: string, email: string, t0: int)
    requires FindToken(tokens, token).None?
    ensures var stored := tokens + [MagicToken(token, email, t0 + TokenLifetimeMs, t0)];
            && ConsumeToken(stored, token, t0 + TokenLifetimeMs).1 == Some(email)
            && ConsumeToken(stored, token, t0 + TokenLifetimeMs + 1).1 == None
  {
    var m := MagicToken(token, email, t0 + TokenLifetimeMs, t0);
    var found := FindToken(tokens + [m], token);
    assert found.Some? ==> found.value == m;
  }

  /** The sweep has no effect on what any verification at the same instant
      returns: the rows it deletes would have failed anyway. */
  lemma SweepKeepsVerification(tokens: seq<MagicToken>, token: string, now: int)
    requires UniqueTokens(tokens)
    ensures ConsumeToken(KeepUnexpired(tokens, now), token, now).1 == ConsumeToken(tokens, token, now).1
  {
    var kept := KeepUnexpired(tokens, now);
    match FindToken(tokens, token)
    case None =>
    case Some(m) =>
      match FindToken(kept, token)
      case None =>
      case Some(m') =>
        SameTokenSameRow(tokens, m, m');
  }

  // ---------------------------------------------------------------------
  // The whole database

  /** The schema constraints and the denormalised counter: ids increase in
      insertion order and stay below the next AUTOINCREMENT value, emails
      are unique, (request_id, user_id) pairs are unique, every vote names a
      request id already handed out, tokens are unique, and each request's
      `vote_count` equals the number of its vote rows. */
  predicate Consistent(db: Db) {
    && 1 <= db.nextUserId && 1 <= db.nextRequestId && 1 <= db.nextVoteId
    && UsersWellFormed(db.users, db.nextUserId)
    && RequestIdsWellFormed(db.requests, db.nextRequestId)
    && VotesWellFormed(db.votes, db.nextVoteId, db.nextRequestId)
    && UniqueTokens(db.tokens)
    && CountsInStep(db.requests, db.votes)
  }

  /** AUTOINCREMENT ids and `email TEXT UNIQUE`. */
  predicate UsersWellFormed(users: seq<User>, nextId: int) {
    && (forall i :: 0 <= i < |users| ==> 0 < users[i].id < nextId)
    && (forall i, j :: 0 <= i < j < |users| ==> users[i].id < users[j].id)
    && (forall i, j :: 0 <= i < j < |users| ==> users[i].email != users[j].email)
  }

  predicate RequestIdsWellFormed(requests: seq<FeatureRequest>, nextId: int) {
    && (forall i :: 0 <= i < |requests| ==> 0 < requests[i].id < nextId)
    && (forall i, j :: 0 <= i < j < |requests| ==> requests[i].id < requests[j].id)
  }

  predicate VotesWellFormed(votes: seq<Vote>, nextId: int, nextRequestId: int) {
    && (forall i :: 0 <= i < |votes| ==> 0 < votes[i].id < nextId)
    && (forall i :: 0 <= i < |votes| ==> votes[i].request_id < nextRequestId)
    && UniquePairs(votes)
  }

  /** The denormalised counter agrees with the vote rows. */
  predicate CountsInStep(requests: seq<FeatureRequest>, votes: seq<Vote>) {
    forall i :: 0 <= i < |requests| ==> requests[i].vote_count == CountVotes(votes, requests[i].id)
  }

  /** The state `init` leaves behind on a fresh database. */
  function EmptyDb(): (db: Db)
    ensures Consistent(db)
  {
    Db([], [], [], [], 1, 1, 1)
  }

  lemma {:induction false} NoVotesForFreshId(votes: seq<Vote>, id: int)
    requires forall i :: 0 <= i < |votes| ==> votes[i].request_id < id
    ensures CountVotes(votes, id) == 0 && forall u :: !HasVote(votes, id, u)
  {
    if votes != [] {
      NoVotesForFreshId(votes[1..], id);
    }
  }

  /** The effect of `toggleVote`: the vote rows toggle, the request row's
      counter moves the same way, and a new vote takes the next vote id. */
  function ToggleDb(db: Db, requestId: int, userId: int, now: int): Db {
    var voted := HasVote(db.votes, requestId, userId);
    db.(votes := ToggleVotes(db.votes, requestId, userId, db.nextVoteId, now),
        requests := AdjustVoteCount(db.requests, requestId, if voted then -1 else 1, now),
        nextVoteId := if voted then db.nextVoteId else db.nextVoteId + 1)
  }

  /** `toggleVote` on an existing request keeps the database consistent, so
      `vote_count` stays equal to the number of vote rows. */
  lemma ToggleDbConsistent(db: Db, requestId: int, userId: int, now: int)
    requires Consistent(db) && RequestById(db.requests, requestId).Some?
    ensures Consistent(ToggleDb(db, requestId, userId, now))
  {
    var delta := if HasVote(db.votes, requestId, userId) then -1 else 1;
    var k :| 0 <= k < |db.requests| && db.requests[k] == RequestById(db.requests, requestId).value;
    assert requestId < db.nextRequestId;
    AdjustedIdsWellFormed(db.requests, requestId, delta, now, db.nextRequestId);
    ToggledVotesWellFormed(db.votes, requestId, userId, db.nextVoteId, now, db.nextRequestId);
    ToggledCountsInStep(db.requests, db.votes, requestId, userId, db.nextVoteId, now);
  }

  lemma AdjustedIdsWellFormed(requests: seq<FeatureRequest>, id: int, delta: int, now: int, nextId: int)
    requires RequestIdsWellFormed(requests, nextId)
    ensures RequestIdsWellFormed(AdjustVoteCount(requests, id, delta, now), nextId)
  {
    var r := AdjustVoteCount(requests, id, delta, now);
    assert forall i :: 0 <= i < |r| ==> r[i].id == requests[i].id;
  }

  lemma ToggledVotesWellFormed(votes: seq<Vote>, requestId: int, userId: int, voteId: int, now: int, nextRequestId: int)
    requires VotesWellFormed(votes, voteId, nextRequestId) && 0 < voteId && requestId < nextRequestId
    ensures VotesWellFormed(ToggleVotes(votes, requestId, userId, voteId, now),
                            if HasVote(votes, requestId, userId) then voteId else voteId + 1, nextRequestId)
  {
    var t := ToggleVotes(votes, requestId, userId, voteId, now);
    ToggleVotesEffect(votes, requestId, userId, voteId, now);
    forall i | 0 <= i < |t|
      ensures 0 < t[i].id < (if HasVote(votes, requestId, userId) then voteId else voteId + 1)
      ensures t[i].request_id < nextRequestId
    {
      if HasVote(votes, requestId, userId) {
        assert t[i] in votes;
      } else if i < |votes| {
        assert t[i] == votes[i];
      }
    }
  }

  lemma ToggledCountsInStep(requests: seq<FeatureRequest>, votes: seq<Vote>, requestId: int, userId: int, voteId: int, now: int)
    requires CountsInStep(requests, votes) && UniquePairs(votes)
    ensures CountsInStep(AdjustVoteCount(requests, requestId, if HasVote(votes, requestId, userId) then -1 else 1, now),
                         ToggleVotes(votes, requestId, userId, voteId, now))
  {
    ToggleVotesEffect(votes, requestId, userId, voteId, now);
  }

  /** What `toggleVote` reads back after its writes: the vote now exists
      exactly when it did not before, and the request row's counter has
      moved by one and equals its number of vote rows. */
  lemma ToggleDbResult(db: Db, requestId: int, userId: int, now: int)
    requires Consistent(db) && RequestById(db.requests, requestId).Some?
    ensures var db' := ToggleDb(db, requestId, userId, now);
            var voted := HasVote(db.votes, requestId, userId);
            && HasVote(db'.votes, requestId, userId) == !voted
            && RequestById(db'.requests, requestId).Some?
            && RequestById(db'.requests, requestId).value.vote_count
               == RequestById(db.requests, requestId).value.vote_count + (if voted then -1 else 1)
            && RequestById(db'.requests, requestId).value.vote_count == CountVotes(db'.votes, requestId)
  {
    var db' := ToggleDb(db, requestId, userId, now);
    ToggleDbConsistent(db, requestId, userId, now);
    ToggleVotesEffect(db.votes, requestId, userId, db.nextVoteId, now);
    RequestByIdAdjusted(db.requests, requestId, if HasVote(db.votes, requestId, userId) then -1 else 1, now, requestId);
    var q := RequestById(db'.requests, requestId).value;
    var i :| 0 <= i < |db'.requests| && db'.requests[i] == q;
  }

  /** What a toggle does to the vote pairs and per-request counts, read at
      the level of the whole database: only its own pair flips, only its own
      request's count moves, and the set of request ids is unchanged. */
  lemma ToggleDbVotes(db: Db, requestId: int, userId: int, now: int)
    requires Consistent(db) && RequestById(db.requests, requestId).Some?
    ensures var db' := ToggleDb(db, requestId, userId, now);
            && db'.users == db.users && db'.tokens == db.tokens
            && (forall x :: RequestById(db'.requests, x).Some? == RequestById(db.requests, x).Some?)
            && (forall r, u :: HasVote(db'.votes, r, u) ==
                  if r == requestId && u == userId then !HasVote(db.votes, r, u) else HasVote(db.votes, r, u))
            && (forall r :: CountVotes(db'.votes, r) == CountVotes(db.votes, r)
                  + (if r != requestId then 0 else if HasVote(db.votes, requestId, userId) then -1 else 1))
  {
    ToggleVotesEffect(db.votes, requestId, userId, db.nextVoteId, now);
    forall x ensures RequestById(ToggleDb(db, requestId, userId, now).requests, x).Some? == RequestById(db.requests, x).Some? {
      RequestByIdAdjusted(db.requests, requestId, if HasVote(db.votes, requestId, userId) then -1 else 1, now, x);
    }
  }

  /** A toggle keeps every request row, so every request id stays present. */
  lemma ToggleKeepsRequests(db: Db, requestId: int, userId: int, now: int, lo: int, hi: int)
    ensures forall x :: lo <= x < hi && RequestById(db.requests, x).Some? ==>
              RequestById(ToggleDb(db, requestId, userId, now).requests, x).Some?
  {
    forall x | lo <= x < hi && RequestById(db.requests, x).Some?
      ensures RequestById(ToggleDb(db, requestId, userId, now).requests, x).Some?
    {
      RequestByIdAdjusted(db.requests, requestId, if HasVote(db.votes, requestId, userId) then -1 else 1, now, x);
    }
  }

  /** Under the invariant, a request's `vote_count` is its number of votes. */
  lemma CounterMatchesVotes(db: Db, id: int)
    requires Consistent(db) && RequestById(db.requests, id).Some?
    ensures RequestById(db.requests, id).value.vote_count == CountVotes(db.votes, id)
  {
    var i :| 0 <= i < |db.requests| && db.requests[i] == RequestById(db.requests, id).value;
  }

  /** Two toggles with the same arguments restore every vote pair and every
      request's `vote_count`; only `updated_at` (and the id a re-inserted
      vote gets) may differ. */
  lemma ToggleDbTwice(db: Db, requestId: int, userId: int, now1: int, now2: int)
    requires Consistent(db) && RequestById(db.requests, requestId).Some?
    ensures var db2 := ToggleDb(ToggleDb(db, requestId, userId, now1), requestId, userId, now2);
            && |db2.requests| == |db.requests|
            && (forall i :: 0 <= i < |db.requests| ==>
                  db2.requests[i].id == db.requests[i].id && db2.requests[i].vote_count == db.requests[i].vote_count)
            && (forall r, u :: HasVote(db2.votes, r, u) == HasVote(db.votes, r, u))
  {
    var db1 := ToggleDb(db, requestId, userId, now1);
    ToggleVotesTwice(db.votes, requestId, userId, db.nextVoteId, db1.nextVoteId, now1, now2);
    ToggleDbTwiceCounts(db, requestId, userId, now1, now2);
  }

  /** The request half of ToggleDbTwice: same rows, same ids, same counts. */
  lemma ToggleDbTwiceCounts(db: Db, requestId: int, userId: int, now1: int, now2: int)
    requires Consistent(db) && RequestById(db.requests, requestId).Some?
    ensures var db2 := ToggleDb(ToggleDb(db, requestId, userId, now1), requestId, userId, now2);
            && |db2.requests| == |db.requests|
            && (forall i :: 0 <= i < |db.requests| ==>
                  db2.requests[i].id == db.requests[i].id && db2.requests[i].vote_count == db.requests[i].vote_count)
  {
    var db1 := ToggleDb(db, requestId, userId, now1);
    ToggleDbConsistent(db, requestId, userId, now1);
    ToggleDbShape(db, requestId, userId, now1);
    var db2 := ToggleDb(db1, requestId, userId, now2);
    ToggleDbInStep(db1, requestId, userId, now2);
    ToggleDbShape(db1, requestId, userId, now2);
    ToggleVotesTwice(db.votes, requestId, userId, db.nextVoteId, db1.nextVoteId, now1, now2);
    CountsRestored(db.requests, db2.requests, db.votes, db2.votes);
  }

  /** The part of ToggleDbConsistent that ToggleDbTwiceCounts needs for its second toggle. */
  lemma ToggleDbInStep(db: Db, requestId: int, userId: int, now: int)
    requires Consistent(db) && RequestById(db.requests, requestId).Some?
    ensures var db' := ToggleDb(db, requestId, userId, now);
            CountsInStep(db'.requests, db'.votes)
  {
    ToggleDbConsistent(db, requestId, userId, now);
  }

  /** `toggleVote` keeps every request row where it was, under the same id. */
  lemma ToggleDbShape(db: Db, requestId: int, userId: int, now: int)
    requires RequestById(db.requests, requestId).Some?
    ensures var db' := ToggleDb(db, requestId, userId, now);
            && |db'.requests| == |db.requests|
            && (forall i :: 0 <= i < |db.requests| ==> db'.requests[i].id == db.requests[i].id)
            && RequestById(db'.requests, requestId).Some?
  {
    RequestByIdAdjusted(db.requests, requestId, if HasVote(db.votes, requestId, userId) then -1 else 1, now, requestId);
  }

  /** Two request tables with the same ids, each in step with its votes, agree
      on every `vote_count` when the votes give every request the same count. */
  lemma CountsRestored(a: seq<FeatureRequest>, b: seq<FeatureRequest>, va: seq<Vote>, vb: seq<Vote>)
    requires |a| == |b| && forall i :: 0 <= i < |a| ==> a[i].id == b[i].id
    requires CountsInStep(a, va) && CountsInStep(b, vb)
    requires forall r :: CountVotes(va, r) == CountVotes(vb, r)
    ensures forall i :: 0 <= i < |a| ==> a[i].vote_count == b[i].vote_count
  {
  }

  /** The effect of `getOrCreateUser`: a known email has its `last_login`
      set and its row as read before the update returned; an unknown one is
      inserted with `created_at = last_login = now`. */
  function UpsertUser(db: Db, email: string, now: int): (Db, User) {
    match UserByEmail(db.users, email)
    case None =>
      var u := User(db.nextUserId, email, now, now);
      (db.(users := db.users + [u], nextUserId := db.nextUserId + 1), u)
    case Some(u) =>
      (db.(users := SetLastLogin(db.users, u.id, now)), u)
  }

  /** `getOrCreateUser` keeps the database consistent, changes only the users
      table, returns a row for `email`, and afterwards `email` is bound to
      exactly that user id: one user per email. */
  lemma UpsertUserEffect(db: Db, email: string, now: int)
    requires Consistent(db)
    ensures var (db', user) := UpsertUser(db, email, now);
            && Consistent(db')
            && db' == db.(users := db'.users, nextUserId := db'.nextUserId)
            && user.email == email
            && UserByEmail(db'.users, email).Some? && UserByEmail(db'.users, email).value.id == user.id
            && (UserByEmail(db.users, email).Some? ==> user == UserByEmail(db.users, email).value && |db'.users| == |db.users|)
            && (UserByEmail(db.users, email).None? ==> user.created_at == now && user.last_login == now && |db'.users| == |db.users| + 1)
  {
    var (db', user) := UpsertUser(db, email, now);
    match UserByEmail(db.users, email)
    case None =>
      var found := UserByEmail(db'.users, email);
      assert found.Some? ==> found.value == user;
      assert user in db'.users;
      assert UsersWellFormed(db'.users, db'.nextUserId) by {
        forall i, j | 0 <= i < j < |db'.users|
          ensures db'.users[i].email != db'.users[j].email
        {
          if j == |db.users| {
            assert db'.users[i] in db.users;
          }
        }
      }
    case Some(u) =>
      LastLoginWellFormed(db.users, u.id, now, db.nextUserId);
      LastLoginKeepsBinding(db.users, u, now, email, db.nextUserId);
  }

  /** Updating `last_login` keeps ids and emails, so the table stays well formed. */
  lemma LastLoginWellFormed(users: seq<User>, id: int, now: int, nextId: int)
    requires UsersWellFormed(users, nextId)
    ensures UsersWellFormed(SetLastLogin(users, id, now), nextId)
  {
    var users' := SetLastLogin(users, id, now);
    assert forall i :: 0 <= i < |users'| ==> users'[i].id == users[i].id && users'[i].email == users[i].email;
  }

  /** Updating `last_login` of the row bound to `email` keeps `email` bound
      to the same id. */
  lemma LastLoginKeepsBinding(users: seq<User>, u: User, now: int, email: string, nextId: int)
    requires UsersWellFormed(users, nextId)
    requires UserByEmail(users, email) == Some(u)
    ensures UserByEmail(SetLastLogin(users, u.id, now), email).Some?
    ensures UserByEmail(SetLastLogin(users, u.id, now), email).value.id == u.id
  {
    var users' := SetLastLogin(users, u.id, now);
    var k :| 0 <= k < |users| && users[k] == u;
    assert users'[k].email == email;
    assert users'[k] in users';
    var found := UserByEmail(users', email).value;
    var j :| 0 <= j < |users'| && users'[j] == found;
    assert users[j].email == users'[j].email == email;
    SameEmailSameIndex(users, nextId, j, k);
    assert users'[j].id == users[j].id;
  }

  /** Under `email TEXT UNIQUE`, two rows with one email are the same row. */
  lemma SameEmailSameIndex(users: seq<User>, nextId: int, j: int, k: int)
    requires UsersWellFormed(users, nextId)
    requires 0 <= j < |users| && 0 <= k < |users| && users[j].email == users[k].email
    ensures j == k
  {
  }

  /** Calling `getOrCreateUser` twice with one email returns the same user id
      both times and creates at most one row. */
  lemma UpsertUserTwice(db: Db, email: string, now1: int, now2: int)
    requires Consistent(db)
    ensures var (db1, u1) := UpsertUser(db, email, now1);
            var (db2, u2) := UpsertUser(db1, email, now2);
            u2.id == u1.id && |db2.users| == |db1.users| <= |db.users| + 1
  {
    UpsertUserEffect(db, email, now1);
    var (db1, u1) := UpsertUser(db, email, now1);
    UpsertUserEffect(db1, email, now2);
  }

  lemma {:induction false} UserByEmailAppend(users: seq<User>, u: User, email: string)
    requires u.email != email
    ensures UserByEmail(users + [u], email) == UserByEmail(users, email)
  {
    if users == [] {
      assert [u][1..] == [];
    } else {
      assert (users + [u])[1..] == users[1..] + [u];
      UserByEmailAppend(users[1..], u, email);
    }
  }

  lemma {:induction false} UserByEmailLastLogin(users: seq<User>, id: int, now: int, email: string)
    ensures UserByEmail(SetLastLogin(users, id, now), email).Some? == UserByEmail(users, email).Some?
    ensures UserByEmail(users, email).Some? ==>
              UserByEmail(SetLastLogin(users, id, now), email).value.id == UserByEmail(users, email).value.id
  {
    if users != [] {
      assert SetLastLogin(users, id, now)[1..] == SetLastLogin(users[1..], id, now);
      UserByEmailLastLogin(users[1..], id, now, email);
    }
  }

  /** `getOrCreateUser` for one email leaves every other email bound to the
      user it was bound to before (or still unbound). */
  lemma UpsertKeepsOtherBindings(db: Db, email: string, now: int, other: string)
    requires other != email
    ensures var (db', _) := UpsertUser(db, email, now);
            && UserByEmail(db'.users, other).Some? == UserByEmail(db.users, other).Some?
            && (UserByEmail(db.users, other).Some? ==> UserByEmail(db'.users, other).value.id == UserByEmail(db.users, other).value.id)
  {
    match UserByEmail(db.users, email)
    case None =>
      UserByEmailAppend(db.users, User(db.nextUserId, email, now, now), other);
    case Some(u) =>
      UserByEmailLastLogin(db.users, u.id, now, other);
  }

  /** Under `email TEXT UNIQUE`, users with different emails have different ids. */
  lemma DistinctEmailsDistinctIds(users: seq<User>, nextId: int, a: User, b: User)
    requires UsersWellFormed(users, nextId) && a in users && b in users && a.email != b.email
    ensures a.id != b.id
  {
    var i :| 0 <= i < |users| && users[i] == a;
    var j :| 0 <= j < |users| && users[j] == b;
  }

  // ---------------------------------------------------------------------
  // Rate limits: a user's rows created in the trailing 24 hours

  /** `SELECT COUNT(*) FROM requests WHERE user_id = ? AND created_at > ?`. */
  function CountRequestsSince(requests: seq<FeatureRequest>, userId: int, since: int): nat {
    if requests == [] then 0
    else (if requests[0].user_id == userId && requests[0].created_at > since then 1 else 0)
         + CountRequestsSince(requests[1..], userId, since)
  }

  /** `SELECT COUNT(*) FROM votes WHERE user_id = ? AND created_at > ?`. */
  function CountVotesSince(votes: seq<Vote>, userId: int, since: int): nat {
    if votes == [] then 0
    else (if votes[0].user_id == userId && votes[0].created_at > since then 1 else 0)
         + CountVotesSince(votes[1..], userId, since)
  }

  datatype RateLimit = RateLimit(allowed: bool, count: nat, limit: nat)

  /** `checkRequestRateLimit`: at most 3 requests per trailing 24 hours. */
  function CheckRequestRateLimit(db: Db, userId: int, now: int): RateLimit {
    var count := CountRequestsSince(db.requests, userId, now - DayMs);
    RateLimit(count < RequestDailyLimit, count, RequestDailyLimit)
  }

  /** `checkVoteRateLimit`: at most 20 votes per trailing 24 hours. */
  function CheckVoteRateLimit(db: Db, userId: int, now: int): RateLimit {
    var count := CountVotesSince(db.votes, userId, now - DayMs);
    RateLimit(count < VoteDailyLimit, count, VoteDailyLimit)
  }

  /** What the request check at `now` means: it allows exactly when one more
      request by the user, made now, keeps the window at no more than 3. */
  lemma RequestQuotaAdmits(db: Db, userId: int, now: int, row: FeatureRequest)
    requires row.user_id == userId && row.created_at == now
    ensures CheckRequestRateLimit(db, userId, now).allowed
            <==> CountRequestsSince(db.requests + [row], userId, now - DayMs) <= RequestDailyLimit
    ensures CheckRequestRateLimit(db, userId, now).count == CountRequestsSince(db.requests, userId, now - DayMs)
  {
    CreatedRequestCounts(db.requests, row, now - DayMs);
  }

  /** What the vote check at `now` means: it allows exactly when one more
      vote by the user, cast now, keeps the window at no more than 20. */
  lemma VoteQuotaAdmits(db: Db, userId: int, now: int, v: Vote)
    requires v.user_id == userId && v.created_at == now
    ensures CheckVoteRateLimit(db, userId, now).allowed
            <==> CountVotesSince(db.votes + [v], userId, now - DayMs) <= VoteDailyLimit
    ensures CheckVoteRateLimit(db, userId, now).count == CountVotesSince(db.votes, userId, now - DayMs)
  {
    CastVoteCounts(db.votes, v, now - DayMs);
  }

  /** A request inserted by `userId` at `now` is counted by the check at
      `now`: each creation uses up one unit of the daily quota. */
  lemma {:induction false} CreatedRequestCounts(requests: seq<FeatureRequest>, row: FeatureRequest, since: int)
    ensures CountRequestsSince(requests + [row], row.user_id, since)
            == CountRequestsSince(requests, row.user_id, since) + (if row.created_at > since then 1 else 0)
    ensures forall u :: u != row.user_id ==> CountRequestsSince(requests + [row], u, since) == CountRequestsSince(requests, u, since)
  {
    if requests != [] {
      assert (requests + [row])[1..] == requests[1..] + [row];
      CreatedRequestCounts(requests[1..], row, since);
    }
  }

  /** A later window counts no more rows than an earlier one, and strictly
      fewer once a counted row of the user has aged out. */
  lemma {:induction false} RequestWindowShrinks(requests: seq<FeatureRequest>, userId: int, since1: int, since2: int, k: nat)
    requires since1 <= since2
    ensures CountRequestsSince(requests, userId, since2) <= CountRequestsSince(requests, userId, since1)
    ensures k < |requests| && requests[k].user_id == userId && since1 < requests[k].created_at <= since2
            ==> CountRequestsSince(requests, userId, since2) < CountRequestsSince(requests, userId, since1)
  {
    if requests != [] {
      RequestWindowShrinks(requests[1..], userId, since1, since2, if k == 0 then 0 else k - 1);
    }
  }

  /** The quota boundary: with three requests in the window the fourth is
      refused (count 3, limit 3); once one of them is more than 24 hours
      old, creating is allowed again. */
  lemma RequestQuotaReopens(db: Db, userId: int, now: int, later: int, k: nat)
    requires CountRequestsSince(db.requests, userId, now - DayMs) == 3
    requires k < |db.requests| && db.requests[k].user_id == userId && db.requests[k].created_at > now - DayMs
    requires later >= now && later - DayMs >= db.requests[k].created_at
    ensures CheckRequestRateLimit(db, userId, now) == RateLimit(false, 3, 3)
    ensures CheckRequestRateLimit(db, userId, later).allowed
  {
    RequestWindowShrinks(db.requests, userId, now - DayMs, later - DayMs, k);
  }

  lemma {:induction false} CastVoteCounts(votes: seq<Vote>, v: Vote, since: int)
    ensures CountVotesSince(votes + [v], v.user_id, since)
            == CountVotesSince(votes, v.user_id, since) + (if v.created_at > since then 1 else 0)
  {
    if votes != [] {
      assert (votes + [v])[1..] == votes[1..] + [v];
      CastVoteCounts(votes[1..], v, since);
    }
  }

  /** An unvote deletes its row, so it stops counting toward the vote quota:
      the count never rises, and drops when the deleted vote was recent. */
  lemma {:induction false} UnvoteFreesQuota(votes: seq<Vote>, requestId: int, userId: int, since: int, k: nat)
    ensures CountVotesSince(RemoveVote(votes, requestId, userId), userId, since) <= CountVotesSince(votes, userId, since)
    ensures k < |votes| && IsPair(votes[k], requestId, userId) && votes[k].created_at > since
            ==> CountVotesSince(RemoveVote(votes, requestId, userId), userId, since) < CountVotesSince(votes, userId, since)
  {
    if votes != [] {
      UnvoteFreesQuota(votes[1..], requestId, userId, since, if k == 0 then 0 else k - 1);
    }
  }

  // ---------------------------------------------------------------------
  // Listing requests

  datatype ListParams = ListParams(
    status: Option<string>, sort: Option<string>, limit: Option<int>, offset: Option<int>, userId: Option<int>)

  /** A listed row: the request, its owner's email and whether the caller voted. */
  datatype RequestWithUser = RequestWithUser(request: FeatureRequest, user_email: string, has_voted: bool)

  datatype RequestList = RequestList(requests: seq<RequestWithUser>, total: nat)

  /** `"all"` keeps everything, any other value is an exact status match. */
  predicate StatusMatches(status: string, q: FeatureRequest) {
    status == "all" || StatusText(q.status) == status
  }

  function FilterStatus(requests: seq<FeatureRequest>, status: string): (r: seq<FeatureRequest>)
    ensures |r| <= |requests|
    ensures forall q :: q in r <==> q in requests && StatusMatches(status, q)
    ensures forall q :: multiset(r)[q] == if StatusMatches(status, q) then multiset(requests)[q] else 0
  {
    if requests == [] then []
    else
      assert requests == [requests[0]] + requests[1..];
      if StatusMatches(status, requests[0]) then [requests[0]] + FilterStatus(requests[1..], status)
      else FilterStatus(requests[1..], status)
  }

  /** `SELECT * FROM users WHERE id = ?`. */
  function UserById(users: seq<User>, id: int): (r: Option<User>)
    ensures r.Some? ==> r.value in users && r.value.id == id
    ensures r.None? ==> forall u :: u in users ==> u.id != id
  {
    if users == [] then None
    else if users[0].id == id then Some(users[0])
    else UserById(users[1..], id)
  }

  /** The `has_voted` column: computed only for a truthy user id. */
  predicate VotedBy(votes: seq<Vote>, requestId: int, userId: Option<int>) {
    userId.Some? && userId.value != 0 && HasVote(votes, requestId, userId.value)
  }

  predicate IsJoined(x: RequestWithUser, users: seq<User>, votes: seq<Vote>, userId: Option<int>) {
    && UserById(users, x.request.user_id).Some?
    && x.user_email == UserById(users, x.request.user_id).value.email
    && x.has_voted == VotedBy(votes, x.request.id, userId)
  }

  /** `FROM requests r JOIN users u ON r.user_id = u.id`: a request whose
      owner row is missing drops out; the others gain `user_email` and
      `has_voted`. */
  function JoinUsers(requests: seq<FeatureRequest>, users: seq<User>, votes: seq<Vote>, userId: Option<int>)
    : (r: seq<RequestWithUser>)
    ensures |r| <= |requests|
    ensures forall x :: x in r ==> x.request in requests && IsJoined(x, users, votes, userId)
    ensures (forall q :: q in requests ==> UserById(users, q.user_id).Some?) ==> |r| == |requests|
  {
    if requests == [] then []
    else
      var rest := JoinUsers(requests[1..], users, votes, userId);
      var q := requests[0];
      match UserById(users, q.user_id)
      case None => rest
      case Some(u) => [RequestWithUser(q, u.email, VotedBy(votes, q.id, userId))] + rest
  }

  /** `vote_count` when sorting by votes, `created_at` for any other sort. */
  function SortKey(x: RequestWithUser, byVotes: bool): int {
    if byVotes then x.request.vote_count else x.request.created_at
  }

  predicate SortedDesc(s: seq<RequestWithUser>, byVotes: bool) {
    forall i, j :: 0 <= i < j < |s| ==> SortKey(s[i], byVotes) >= SortKey(s[j], byVotes)
  }

  /** Inserts `x` before the first row whose key is not greater than its own. */
  function InsertDesc(x: RequestWithUser, s: seq<RequestWithUser>, byVotes: bool): (r: seq<RequestWithUser>)
    requires SortedDesc(s, byVotes)
    ensures SortedDesc(r, byVotes)
    ensures multiset(r) == multiset(s) + multiset{x}
  {
    if s == [] || SortKey(s[0], byVotes) <= SortKey(x, byVotes) then [x] + s
    else
      var rest := InsertDesc(x, s[1..], byVotes);
      InsertBehindHead(s, rest, x, byVotes);
      [s[0]] + rest
  }

  /** Putting the head of a sorted sequence back in front of the rest with
      `x` inserted keeps it sorted and adds exactly `x`. */
  lemma InsertBehindHead(s: seq<RequestWithUser>, rest: seq<RequestWithUser>, x: RequestWithUser, byVotes: bool)
    requires s != [] && SortedDesc(s, byVotes) && SortKey(x, byVotes) < SortKey(s[0], byVotes)
    requires SortedDesc(rest, byVotes) && multiset(rest) == multiset(s[1..]) + multiset{x}
    ensures SortedDesc([s[0]] + rest, byVotes)
    ensures multiset([s[0]] + rest) == multiset(s) + multiset{x}
  {
    assert s == [s[0]] + s[1..];
    HeadOverSorted(s[0], rest, s[1..], x, byVotes);
  }

  /** A row whose key bounds every row of a sorted sequence can go in front. */
  lemma HeadOverSorted(h: RequestWithUser, rest: seq<RequestWithUser>, t: seq<RequestWithUser>, x: RequestWithUser, byVotes: bool)
    requires SortedDesc(rest, byVotes) && multiset(rest) == multiset(t) + multiset{x}
    requires SortKey(x, byVotes) < SortKey(h, byVotes)
    requires forall j :: 0 <= j < |t| ==> SortKey(t[j], byVotes) <= SortKey(h, byVotes)
    ensures SortedDesc([h] + rest, byVotes)
  {
    forall j | 0 <= j < |rest| ensures SortKey(rest[j], byVotes) <= SortKey(h, byVotes) {
      assert rest[j] in multiset(rest);
      if rest[j] != x {
        assert rest[j] in multiset(t);
        var k :| 0 <= k < |t| && t[k] == rest[j];
      }
    }
  }

  /** `ORDER BY key DESC`, ties kept in insertion order: the rows rearranged
      so that keys never increase. */
  function SortDesc(s: seq<RequestWithUser>, byVotes: bool): (r: seq<RequestWithUser>)
    ensures SortedDesc(r, byVotes)
    ensures multiset(r) == multiset(s)
  {
    if s == [] then []
    else
      assert s == [s[0]] + s[1..];
      InsertDesc(s[0], SortDesc(s[1..], byVotes), byVotes)
  }

  /** `LIMIT ? OFFSET ?` as SQLite applies them: a negative offset counts
      as 0 and a negative limit means no limit. */
  function Page<T>(s: seq<T>, limit: int, offset: int): (r: seq<T>)
    ensures limit >= 0 ==> |r| <= limit
    ensures var start := if offset < 0 then 0 else offset;
            && |r| == (if start >= |s| then 0 else if limit < 0 || |s| - start < limit then |s| - start else limit)
            && forall i :: 0 <= i < |r| ==> r[i] == s[start + i]
  {
    var start := if offset < 0 then 0 else if offset > |s| then |s| else offset;
    var end := if limit < 0 || |s| - start < limit then |s| else start + limit;
    s[start..end]
  }

  /** `getRequests`: status defaults to "all", sort to "votes", limit to
      50, offset to 0.  The page holds at most `limit` rows in descending
      key order, each a status-matching request joined with its owner;
      `total` counts every status-matching request, ignoring the join and
      the paging. */
  function GetRequests(db: Db, params: ListParams): (r: RequestList)
    ensures r.requests == Page(SortDesc(JoinUsers(FilterStatus(db.requests, params.status.GetOr("all")), db.users, db.votes, params.userId),
                                        params.sort.GetOr("votes") == "votes"),
                               params.limit.GetOr(50), params.offset.GetOr(0))
    ensures r.total == |FilterStatus(db.requests, params.status.GetOr("all"))|
    ensures params.limit.GetOr(50) >= 0 ==> |r.requests| <= params.limit.GetOr(50)
    ensures SortedDesc(r.requests, params.sort.GetOr("votes") == "votes")
    ensures forall x :: x in r.requests ==>
              && x.request in db.requests
              && StatusMatches(params.status.GetOr("all"), x.request)
              && IsJoined(x, db.users, db.votes, params.userId)
  {
    var status := params.status.GetOr("all");
    var byVotes := params.sort.GetOr("votes") == "votes";
    var matching := FilterStatus(db.requests, status);
    var rows := SortDesc(JoinUsers(matching, db.users, db.votes, params.userId), byVotes);
    var page := Page(rows, params.limit.GetOr(50), params.offset.GetOr(0));
    assert forall x :: x in page ==> x in rows;
    assert forall x :: x in rows ==> x in multiset(rows);
    RequestList(page, |matching|)
  }

  /** A request whose owner exists survives the join, carrying the owner's
      email and the caller's vote flag. */
  lemma {:induction false} JoinUsersKeeps(requests: seq<FeatureRequest>, users: seq<User>, votes: seq<Vote>,
                                          userId: Option<int>, q: FeatureRequest)
    requires q in requests && UserById(users, q.user_id).Some?
    ensures RequestWithUser(q, UserById(users, q.user_id).value.email, VotedBy(votes, q.id, userId))
            in JoinUsers(requests, users, votes, userId)
  {
    if requests[0] != q {
      JoinUsersKeeps(requests[1..], users, votes, userId, q);
    }
  }

  /** With no offset and no limit the listing is complete: every request
      matching the status filter whose owner exists is listed once joined. */
  lemma ListingComplete(db: Db, params: ListParams, q: FeatureRequest)
    requires params.offset.GetOr(0) <= 0 && params.limit.GetOr(50) < 0
    requires q in db.requests && StatusMatches(params.status.GetOr("all"), q)
    requires UserById(db.users, q.user_id).Some?
    ensures RequestWithUser(q, UserById(db.users, q.user_id).value.email, VotedBy(db.votes, q.id, params.userId))
            in GetRequests(db, params).requests
  {
    var matching := FilterStatus(db.requests, params.status.GetOr("all"));
    var joined := JoinUsers(matching, db.users, db.votes, params.userId);
    var rows := SortDesc(joined, params.sort.GetOr("votes") == "votes");
    var x := RequestWithUser(q, UserById(db.users, q.user_id).value.email, VotedBy(db.votes, q.id, params.userId));
    JoinUsersKeeps(matching, db.users, db.votes, params.userId, q);
    assert x in multiset(rows);
    PageWhole(rows, params.limit.GetOr(50), params.offset.GetOr(0));
  }

  /** No offset and no limit: the page is the whole result. */
  lemma PageWhole<T>(s: seq<T>, limit: int, offset: int)
    requires offset <= 0 && limit < 0
    ensures Page(s, limit, offset) == s
  {
  }

  /** After a toggle that casts a vote, the voter's listing shows the
      request as voted with its count one higher; after one that removes
      it, as not voted with its count one lower. */
  lemma ToggleShowsInListing(db: Db, requestId: int, userId: int, now: int, params: ListParams, x: RequestWithUser)
    requires Consistent(db) && RequestById(db.requests, requestId).Some?
    requires params.userId == Some(userId) && userId != 0
    requires x in GetRequests(ToggleDb(db, requestId, userId, now), params).requests && x.request.id == requestId
    ensures x.has_voted == !HasVote(db.votes, requestId, userId)
    ensures x.request.vote_count == CountVotes(db.votes, requestId) + (if x.has_voted then 1 else -1)
  {
    var db' := ToggleDb(db, requestId, userId, now);
    ToggleDbConsistent(db, requestId, userId, now);
    ToggleVotesEffect(db.votes, requestId, userId, db.nextVoteId, now);
    var i :| 0 <= i < |db'.requests| && db'.requests[i] == x.request;
  }

  // ---------------------------------------------------------------------
  // The table object

  /** Why a store statement can throw: inserting a token that is already
      a primary key of `magic_tokens`. */
  datatype StoreError = DuplicateToken

  /** `FeatureRequestTable`: holds the database and changes it one SQL
      statement at a time. */
  class FeatureRequestTable {
    var db: Db

    ghost predicate Valid()
      reads this
    {
      Consistent(db)
    }

    constructor (initial: Db)
      requires Consistent(initial)
      ensures Valid() && db == initial
    {
      db := initial;
    }

    /** `createRequest`: one INSERT of a pending request with no votes,
        stamped `now`; the new row is returned. */
    method CreateRequest(title: string, description: string, userId: int, now: int) returns (request: FeatureRequest)
      requires Valid()
      modifies this
      ensures Valid()
      ensures request == FeatureRequest(old(db.nextRequestId), title, description, userId, Pending, 0, now, now)
      ensures db == old(db).(requests := old(db.requests) + [request], nextRequestId := old(db.nextRequestId) + 1)
    {
      var row := FeatureRequest(db.nextRequestId, title, description, userId, Pending, 0, now, now);
      NoVotesForFreshId(db.votes, db.nextRequestId);
      db := db.(requests := db.requests + [row], nextRequestId := db.nextRequestId + 1);
      request := db.requests[|db.requests| - 1];
    }

    /** `toggleVote`: look for the caller's vote; delete it and decrement the
        counter, or insert one and increment it; then read the counter back.
        `hasVoted` is true exactly when no vote existed before. */
    method ToggleVote(requestId: int, userId: int, now: int) returns (voteCount: int, hasVoted: bool)
      requires Valid() && RequestById(db.requests, requestId).Some?
      modifies this
      ensures Valid()
      ensures db == ToggleDb(old(db), requestId, userId, now)
      ensures hasVoted == !HasVote(old(db.votes), requestId, userId)
      ensures HasVote(db.votes, requestId, userId) == hasVoted
      ensures voteCount == CountVotes(db.votes, requestId)
      ensures voteCount == old(RequestById(db.requests, requestId).value.vote_count) + (if hasVoted then 1 else -1)
    {
      ghost var before := db;
      ToggleDbConsistent(before, requestId, userId, now);
      ToggleDbResult(before, requestId, userId, now);
      var existing := HasVote(db.votes, requestId, userId);
      if existing {
        db := db.(votes := RemoveVote(db.votes, requestId, userId));
        db := db.(requests := AdjustVoteCount(db.requests, requestId, -1, now));
      } else {
        db := db.(votes := db.votes + [Vote(db.nextVoteId, requestId, userId, now)], nextVoteId := db.nextVoteId + 1);
        db := db.(requests := AdjustVoteCount(db.requests, requestId, 1, now));
      }
      assert db == ToggleDb(before, requestId, userId, now);
      var row := RequestById(db.requests, requestId);
      voteCount := row.value.vote_count;
      hasVoted := !existing;
    }

    /** `getOrCreateUser`: look the email up; insert a new user and read it
        back, or update the existing user's `last_login` and return the row
        as it was read. */
    method GetOrCreateUser(email: string, now: int) returns (user: User)
      requires Valid()
      modifies this
      ensures Valid()
      ensures (db, user) == UpsertUser(old(db), email, now)
      ensures user.email == email
      ensures UserByEmail(db.users, email).Some? && UserByEmail(db.users, email).value.id == user.id
    {
      ghost var before := db;
      UpsertUserEffect(before, email, now);
      var found := UserByEmail(db.users, email);
      if found.None? {
        var row := User(db.nextUserId, email, now, now);
        db := db.(users := db.users + [row], nextUserId := db.nextUserId + 1);
        var fetched := UserByEmail(db.users, email);
        assert fetched.Some? ==> fetched.value == row;
        assert row in db.users;
        user := fetched.value;
      } else {
        user := found.value;
        db := db.(users := SetLastLogin(db.users, user.id, now));
      }
    }

    /** `createMagicToken`: stores `token` for `email`, expiring 15 minutes
        after `now`; a token string already present violates the primary
        key and nothing is stored. */
    method CreateMagicToken(email: string, token: string, now: int) returns (r: Result<string, StoreError>)
      requires Valid()
      modifies this
      ensures Valid()
      ensures FindToken(old(db.tokens), token).Some? ==> r == Failure(DuplicateToken) && db == old(db)
      ensures FindToken(old(db.tokens), token).None? ==>
                && r == Success(token)
                && db == old(db).(tokens := old(db.tokens) + [MagicToken(token, email, now + TokenLifetimeMs, now)])
    {
      if FindToken(db.tokens, token).Some? {
        return Failure(DuplicateToken);
      }
      var expiresAt := now + 15 * 60 * 1000;
      var row := MagicToken(token, email, expiresAt, now);
      UniqueTokensAppend(db.tokens, row);
      db := db.(tokens := db.tokens + [row]);
      r := Success(token);
    }

    /** `verifyMagicToken`: an unknown token changes nothing; a known one is
        deleted whether or not it has expired, and its email is returned only
        when `now` is not past `expires_at`. */
    method VerifyMagicToken(token: string, now: int) returns (email: Option<string>)
      requires Valid()
      modifies this
      ensures Valid()
      ensures (db.tokens, email) == ConsumeToken(old(db.tokens), token, now)
      ensures db == old(db).(tokens := db.tokens)
      ensures FindToken(db.tokens, token).None?
    {
      var magicToken := FindToken(db.tokens, token);
      if magicToken.None? {
        return None;
      }
      UniqueTokensRemove(db.tokens, token);
      if now > magicToken.value.expires_at {
        db := db.(tokens := RemoveToken(db.tokens, token));
        return None;
      }
      db := db.(tokens := RemoveToken(db.tokens, token));
      email := Some(magicToken.value.email);
    }

    /** `cleanupExpiredTokens`: deletes exactly the tokens whose `expires_at`
        lies before `now`. */
    method CleanupExpiredTokens(now: int)
      requires Valid()
      modifies this
      ensures Valid()
      ensures db == old(db).(tokens := KeepUnexpired(old(db.tokens), now))
      ensures forall m :: m in db.tokens <==> m in old(db.tokens) && m.expires_at >= now
    {
      UniqueTokensKeep(db.tokens, now);
      db := db.(tokens := KeepUnexpired(db.tokens, now));
    }
  }
}
