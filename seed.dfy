/**
 * `POST /api/feature-requests/seed` (server/api/feature-requests/seed.post.ts):
 * three users, five requests created in a loop, five votes.
 */
module Seed {
  import opened Wrappers
  import opened FeatureRequestStore

  datatype NewRequest = NewRequest(title: string, description: string, userId: int)

  /** The `data` part of the reply. */
  datatype SeedSummary = SeedSummary(users: nat, requests: nat, votes: nat)

  const Email1 := "user1@example.com"
  const Email2 := "user2@example.com"
  const Email3 := "user3@example.com"

  /** The five sample requests, owned by users 1, 2, 3, 1, 2. */
  function SampleRequests(u1: int, u2: int, u3: int): (rs: seq<NewRequest>)
    ensures |rs| == 5
  {
    [ NewRequest("添加实时K线图", "希望能在个股页面看到实时K线图，支持日线、周线、月线切换", u1),
      NewRequest("支持自选股功能", "能够添加自选股并实时查看涨跌情况，方便快速关注重要股票", u2),
      NewRequest("添加新闻推送通知", "重要新闻能够推送到手机，不错过关键信息", u3),
      NewRequest("支持暗黑模式", "夜间看盘时希望能切换到暗黑模式，保护眼睛", u1),
      NewRequest("添加财务数据对比", "能够对比多个股票的财务指标，方便横向比较", u2) ]
  }

  /** The vote count each sample request ends with. */
  const ExpectedVotes: seq<nat> := [2, 2, 1, 0, 0]

  /** The vote rows the five toggles add, in order: (r0, u2), (r0, u3),
      (r1, u1), (r1, u3), (r2, u1) with r0, r1, r2 the first three new
      request ids and consecutive vote ids from `voteId`. */
  function Ballots(r: int, u1: int, u2: int, u3: int, voteId: int, now: int): (b: seq<Vote>)
    ensures |b| == 5
  {
    [ Vote(voteId, r, u2, now), Vote(voteId + 1, r, u3, now), Vote(voteId + 2, r + 1, u1, now),
      Vote(voteId + 3, r + 1, u3, now), Vote(voteId + 4, r + 2, u1, now) ]
  }

  /** Each toggle meets a pair that has no vote yet, so each one inserts;
      afterwards the five new requests r..r+4 have 2, 2, 1, 0 and 0 votes,
      and none has a vote from its owner (u1, u2, u3, u1, u2). */
  lemma BallotsEffect(votes: seq<Vote>, r: int, u1: int, u2: int, u3: int, voteId: int, now: int)
    requires forall i :: 0 <= i < |votes| ==> votes[i].request_id < r
    requires u1 != u2 && u1 != u3 && u2 != u3
    ensures var b := Ballots(r, u1, u2, u3, voteId, now);
            && !HasVote(votes, r, u2)
            && !HasVote(votes + b[..1], r, u3)
            && !HasVote(votes + b[..2], r + 1, u1)
            && !HasVote(votes + b[..3], r + 1, u3)
            && !HasVote(votes + b[..4], r + 2, u1)
            && (forall k :: 0 <= k < 5 ==> CountVotes(votes + b, r + k) == ExpectedVotes[k])
            && !HasVote(votes + b, r, u1) && !HasVote(votes + b, r + 1, u2) && !HasVote(votes + b, r + 2, u3)
            && !HasVote(votes + b, r + 3, u1) && !HasVote(votes + b, r + 4, u2)
  {
    var b := Ballots(r, u1, u2, u3, voteId, now);
    NoVotesForFreshId(votes, r);
    NoVotesForFreshId(votes, r + 1);
    NoVotesForFreshId(votes, r + 2);
    NoVotesForFreshId(votes, r + 3);
    NoVotesForFreshId(votes, r + 4);
    var w1 := votes + [b[0]];
    var w2 := w1 + [b[1]];
    var w3 := w2 + [b[2]];
    var w4 := w3 + [b[3]];
    var w5 := w4 + [b[4]];
    AppendStep(votes, b[0]);
    AppendStep(w1, b[1]);
    AppendStep(w2, b[2]);
    AppendStep(w3, b[3]);
    AppendStep(w4, b[4]);
    assert votes + b[..1] == w1;
    assert votes + b[..2] == w2;
    assert votes + b[..3] == w3;
    assert votes + b[..4] == w4;
    assert votes + b == w5;
  }

  /** The part of BallotsEffect each seed toggle relies on: its pair has no vote yet. */
  lemma BallotsFresh(votes: seq<Vote>, r: int, u1: int, u2: int, u3: int, voteId: int, now: int)
    requires forall i :: 0 <= i < |votes| ==> votes[i].request_id < r
    requires u1 != u2 && u1 != u3 && u2 != u3
    ensures var b := Ballots(r, u1, u2, u3, voteId, now);
            && !HasVote(votes, r, u2)
            && !HasVote(votes + b[..1], r, u3)
            && !HasVote(votes + b[..2], r + 1, u1)
            && !HasVote(votes + b[..3], r + 1, u3)
            && !HasVote(votes + b[..4], r + 2, u1)
  {
    BallotsEffect(votes, r, u1, u2, u3, voteId, now);
  }

  /** Appending one vote adds its pair and counts it for its request only. */
  lemma AppendStep(w: seq<Vote>, v: Vote)
    ensures forall x, u :: HasVote(w + [v], x, u) == (HasVote(w, x, u) || IsPair(v, x, u))
    ensures forall x :: CountVotes(w + [v], x) == CountVotes(w, x) + (if v.request_id == x then 1 else 0)
  {
    forall x, u ensures HasVote(w + [v], x, u) == (HasVote(w, x, u) || IsPair(v, x, u)) {
      HasVoteAppend(w, v, x, u);
    }
    forall x ensures CountVotes(w + [v], x) == CountVotes(w, x) + (if v.request_id == x then 1 else 0) {
      CountVotesAppend(w, v, x);
    }
  }

  /** The toggles of the seed leave every request row where it was and
      change only its `vote_count` and `updated_at`; rows with an id below
      `r` are not touched at all. */
  predicate VotedOnly(before: seq<FeatureRequest>, after: seq<FeatureRequest>, r: int) {
    && |after| == |before|
    && (forall i :: 0 <= i < |before| ==>
          after[i] == before[i].(vote_count := after[i].vote_count, updated_at := after[i].updated_at))
    && (forall i :: 0 <= i < |before| && before[i].id < r ==> after[i] == before[i])
  }

  lemma VotedOnlyTrans(a: seq<FeatureRequest>, b: seq<FeatureRequest>, c: seq<FeatureRequest>, r: int)
    requires VotedOnly(a, b, r) && VotedOnly(b, c, r)
    ensures VotedOnly(a, c, r)
  {
    forall i | 0 <= i < |a|
      ensures c[i] == a[i].(vote_count := c[i].vote_count, updated_at := c[i].updated_at)
    {
      assert b[i].id == a[i].id;
    }
  }

  /** The database after `getOrCreateUser` for `e1`, `e2` and `e3` in turn. */
  function UpsertThree(db: Db, e1: string, e2: string, e3: string, now: int): Db {
    UpsertUser(UpsertUser(UpsertUser(db, e1, now).0, e2, now).0, e3, now).0
  }

  /** `email` is bound to the user with id `id`. */
  predicate BoundTo(users: seq<User>, email: string, id: int) {
    UserByEmail(users, email).Some? && UserByEmail(users, email).value.id == id
  }

  /** The handler, with one clock reading for the whole run.  The three
      sample emails end up bound to three distinct users, and an email that
      was already bound keeps its user (so a rerun reuses the users).  Five
      new pending requests follow in the listed order with consecutive ids,
      each owned as listed; after the five toggles their counts are 2, 2, 1,
      0, 0, nobody has voted on their own request, and the reply reports
      3 users, 5 requests and 5 votes. */
  method SeedData(table: FeatureRequestTable, now: int) returns (summary: SeedSummary, created: seq<FeatureRequest>)
    requires table.Valid()
    modifies table
    ensures table.Valid()
    ensures |created| == 5 && summary == SeedSummary(3, |created|, 5)
    ensures table.db.tokens == old(table.db.tokens)
    ensures var d := UpsertThree(old(table.db), Email1, Email2, Email3, now);
            table.db.users == d.users && table.db.nextUserId == d.nextUserId
    ensures forall e :: e != Email1 && e != Email2 && e != Email3 && UserByEmail(old(table.db.users), e).Some? ==>
              UserByEmail(table.db.users, e).Some? && UserByEmail(table.db.users, e).value.id == UserByEmail(old(table.db.users), e).value.id
    ensures |table.db.requests| == |old(table.db.requests)| + 5
    ensures table.db.requests[..|old(table.db.requests)|] == old(table.db.requests)
    ensures VotedOnly(old(table.db.requests) + created, table.db.requests, old(table.db.nextRequestId))
    ensures table.db.nextRequestId == old(table.db.nextRequestId) + 5 && table.db.nextVoteId == old(table.db.nextVoteId) + 5
    ensures table.db.votes == old(table.db.votes) + Ballots(old(table.db.nextRequestId), created[0].user_id, created[1].user_id,
                                                            created[2].user_id, old(table.db.nextVoteId), now)
    ensures BoundTo(table.db.users, Email1, created[0].user_id)
    ensures BoundTo(table.db.users, Email2, created[1].user_id)
    ensures BoundTo(table.db.users, Email3, created[2].user_id)
    ensures created[0].user_id != created[1].user_id && created[0].user_id != created[2].user_id
            && created[1].user_id != created[2].user_id
    ensures UserByEmail(old(table.db.users), Email1).Some? ==> BoundTo(old(table.db.users), Email1, created[0].user_id)
    ensures UserByEmail(old(table.db.users), Email2).Some? ==> BoundTo(old(table.db.users), Email2, created[1].user_id)
    ensures UserByEmail(old(table.db.users), Email3).Some? ==> BoundTo(old(table.db.users), Email3, created[2].user_id)
    ensures var rs := SampleRequests(created[0].user_id, created[1].user_id, created[2].user_id);
            forall k :: 0 <= k < 5 ==>
              created[k] == FeatureRequest(old(table.db.nextRequestId) + k, rs[k].title, rs[k].description,
                                           rs[k].userId, Pending, 0, now, now)
    ensures forall k :: 0 <= k < 5 ==>
              && RequestById(table.db.requests, created[k].id).Some?
              && RequestById(table.db.requests, created[k].id).value.vote_count == ExpectedVotes[k]
              && !HasVote(table.db.votes, created[k].id, created[k].user_id)
  {
    assert Email1 != Email2 && Email1 != Email3 && Email2 != Email3;
    var user1, user2, user3 := SeedUsers(table, Email1, Email2, Email3, now);
    created := SeedRequests(table, user1.id, user2.id, user3.id, now);
    summary := SeedSummary(3, |created|, 5);
  }

  /** The user half of the seed: `getOrCreateUser` for three different
      emails gives three distinct users, each bound to its email, and an
      email bound before keeps its user. */
  method SeedUsers(table: FeatureRequestTable, e1: string, e2: string, e3: string, now: int)
    returns (user1: User, user2: User, user3: User)
    requires table.Valid()
    requires e1 != e2 && e1 != e3 && e2 != e3
    modifies table
    ensures table.Valid()
    ensures table.db == UpsertThree(old(table.db), e1, e2, e3, now)
    ensures table.db == old(table.db).(users := table.db.users, nextUserId := table.db.nextUserId)
    ensures forall e :: e != e1 && e != e2 && e != e3 && UserByEmail(old(table.db.users), e).Some? ==>
              UserByEmail(table.db.users, e).Some? && UserByEmail(table.db.users, e).value.id == UserByEmail(old(table.db.users), e).value.id
    ensures BoundTo(table.db.users, e1, user1.id) && BoundTo(table.db.users, e2, user2.id) && BoundTo(table.db.users, e3, user3.id)
    ensures user1.id != user2.id && user1.id != user3.id && user2.id != user3.id
    ensures UserByEmail(old(table.db.users), e1).Some? ==> BoundTo(old(table.db.users), e1, user1.id)
    ensures UserByEmail(old(table.db.users), e2).Some? ==> BoundTo(old(table.db.users), e2, user2.id)
    ensures UserByEmail(old(table.db.users), e3).Some? ==> BoundTo(old(table.db.users), e3, user3.id)
  {
    ghost var start := table.db;
    user1 := table.GetOrCreateUser(e1, now);
    ghost var d1 := table.db;
    user2 := table.GetOrCreateUser(e2, now);
    ghost var d2 := table.db;
    user3 := table.GetOrCreateUser(e3, now);
    ghost var d3 := table.db;
    SeedUsersDistinct(start, d1, d2, d3, user1, user2, user3, e1, e2, e3, now);
  }

  /** The request-and-vote half of the seed, for three distinct users. */
  method SeedRequests(table: FeatureRequestTable, u1: int, u2: int, u3: int, now: int) returns (created: seq<FeatureRequest>)
    requires table.Valid()
    requires u1 != u2 && u1 != u3 && u2 != u3
    modifies table
    ensures table.Valid()
    ensures table.db.users == old(table.db.users) && table.db.tokens == old(table.db.tokens)
    ensures table.db.nextUserId == old(table.db.nextUserId)
    ensures table.db.nextRequestId == old(table.db.nextRequestId) + 5 && table.db.nextVoteId == old(table.db.nextVoteId) + 5
    ensures VotedOnly(old(table.db.requests) + created, table.db.requests, old(table.db.nextRequestId))
    ensures |created| == 5 && created[0].user_id == u1 && created[1].user_id == u2 && created[2].user_id == u3
    ensures |table.db.requests| == |old(table.db.requests)| + 5
    ensures table.db.requests[..|old(table.db.requests)|] == old(table.db.requests)
    ensures table.db.votes == old(table.db.votes) + Ballots(old(table.db.nextRequestId), u1, u2, u3, old(table.db.nextVoteId), now)
    ensures var rs := SampleRequests(u1, u2, u3);
            forall k :: 0 <= k < 5 ==>
              created[k] == FeatureRequest(old(table.db.nextRequestId) + k, rs[k].title, rs[k].description,
                                           rs[k].userId, Pending, 0, now, now)
    ensures forall k :: 0 <= k < 5 ==>
              && RequestById(table.db.requests, created[k].id).Some?
              && RequestById(table.db.requests, created[k].id).value.vote_count == ExpectedVotes[k]
              && !HasVote(table.db.votes, created[k].id, created[k].user_id)
  {
    ghost var d3 := table.db;
    var requests := SampleRequests(u1, u2, u3);
    created := CreateAll(table, requests, now);
    var base := created[0].id;
    ghost var d4 := table.db;
    AppendedRequestsPresent(d3.requests, created, base);
    SeedVotes(table, base, u1, u2, u3, now);
    SeedOutcome(d4.votes, table.db, base, u1, u2, u3, d4.nextVoteId, now, created);
    EarlierRowsKept(d3.requests, created, table.db.requests, base, d3.nextRequestId);
  }

  /** Rows older than the seed's requests have smaller ids, so the toggles
      leave them as they were. */
  lemma EarlierRowsKept(old_: seq<FeatureRequest>, created: seq<FeatureRequest>, after: seq<FeatureRequest>, base: int, nextId: int)
    requires RequestIdsWellFormed(old_, nextId) && base == nextId
    requires VotedOnly(old_ + created, after, base)
    ensures |after| == |old_| + |created|
    ensures after[..|old_|] == old_
  {
    forall i | 0 <= i < |old_| ensures after[i] == old_[i] {
      assert (old_ + created)[i] == old_[i];
    }
  }

  lemma AppendedRequestsPresent(requests: seq<FeatureRequest>, created: seq<FeatureRequest>, base: int)
    requires |created| == 5 && forall k :: 0 <= k < 5 ==> created[k].id == base + k
    ensures forall x :: base <= x < base + 5 ==> RequestById(requests + created, x).Some?
  {
    forall x | base <= x < base + 5 ensures RequestById(requests + created, x).Some? {
      assert (requests + created)[|requests| + (x - base)] == created[x - base];
    }
  }

  /** `for (const req of requests) createdRequests.push(await createRequest(req))`:
      the rows are inserted in order with consecutive ids and returned in
      that order. */
  method CreateAll(table: FeatureRequestTable, requests: seq<NewRequest>, now: int) returns (created: seq<FeatureRequest>)
    requires table.Valid()
    modifies table
    ensures table.Valid()
    ensures |created| == |requests|
    ensures table.db == old(table.db).(requests := old(table.db.requests) + created,
                                       nextRequestId := old(table.db.nextRequestId) + |requests|)
    ensures forall j :: 0 <= j < |requests| ==>
              created[j] == FeatureRequest(old(table.db.nextRequestId) + j, requests[j].title, requests[j].description,
                                           requests[j].userId, Pending, 0, now, now)
  {
    ghost var d := table.db;
    created := [];
    for k := 0 to |requests|
      invariant table.Valid()
      invariant |created| == k
      invariant table.db == d.(requests := d.requests + created, nextRequestId := d.nextRequestId + k)
      invariant forall j :: 0 <= j < k ==>
                  created[j] == FeatureRequest(d.nextRequestId + j, requests[j].title, requests[j].description,
                                               requests[j].userId, Pending, 0, now, now)
    {
      var request := table.CreateRequest(requests[k].title, requests[k].description, requests[k].userId, now);
      created := created + [request];
    }
  }

  /** The counts and voters the seed leaves on its five requests. */
  lemma SeedOutcome(votes: seq<Vote>, db: Db, r: int, u1: int, u2: int, u3: int, voteId: int, now: int, created: seq<FeatureRequest>)
    requires Consistent(db) && |created| == 5
    requires forall i :: 0 <= i < |votes| ==> votes[i].request_id < r
    requires u1 != u2 && u1 != u3 && u2 != u3
    requires db.votes == votes + Ballots(r, u1, u2, u3, voteId, now)
    requires forall x :: r <= x < r + 5 ==> RequestById(db.requests, x).Some?
    requires forall k :: 0 <= k < 5 ==> created[k].id == r + k
    requires created[0].user_id == u1 && created[1].user_id == u2 && created[2].user_id == u3
    requires created[3].user_id == u1 && created[4].user_id == u2
    ensures forall k :: 0 <= k < 5 ==>
              && RequestById(db.requests, created[k].id).Some?
              && RequestById(db.requests, created[k].id).value.vote_count == ExpectedVotes[k]
              && !HasVote(db.votes, created[k].id, created[k].user_id)
  {
    BallotsEffect(votes, r, u1, u2, u3, voteId, now);
    forall k | 0 <= k < 5
      ensures RequestById(db.requests, created[k].id).Some?
      ensures RequestById(db.requests, created[k].id).value.vote_count == ExpectedVotes[k]
    {
      CounterMatchesVotes(db, created[k].id);
    }
  }

  /** After the three `getOrCreateUser` calls each sample email is bound to
      the user its call returned, the three ids differ, and an email bound
      before keeps its user. */
  lemma SeedUsersDistinct(start: Db, d1: Db, d2: Db, d3: Db, user1: User, user2: User, user3: User,
                          Email1: string, Email2: string, Email3: string, now: int)
    requires Consistent(start)
    requires Email1 != Email2 && Email1 != Email3 && Email2 != Email3
    requires (d1, user1) == UpsertUser(start, Email1, now)
    requires (d2, user2) == UpsertUser(d1, Email2, now)
    requires (d3, user3) == UpsertUser(d2, Email3, now)
    ensures BoundTo(d3.users, Email1, user1.id) && BoundTo(d3.users, Email2, user2.id) && BoundTo(d3.users, Email3, user3.id)
    ensures user1.id != user2.id && user1.id != user3.id && user2.id != user3.id
    ensures UserByEmail(start.users, Email1).Some? ==> BoundTo(start.users, Email1, user1.id)
    ensures UserByEmail(start.users, Email2).Some? ==> BoundTo(start.users, Email2, user2.id)
    ensures UserByEmail(start.users, Email3).Some? ==> BoundTo(start.users, Email3, user3.id)
    ensures d3 == start.(users := d3.users, nextUserId := d3.nextUserId)
    ensures forall e :: e != Email1 && e != Email2 && e != Email3 && UserByEmail(start.users, e).Some? ==>
              UserByEmail(d3.users, e).Some? && UserByEmail(d3.users, e).value.id == UserByEmail(start.users, e).value.id
  {
    forall e | e != Email1 && e != Email2 && e != Email3 && UserByEmail(start.users, e).Some?
      ensures UserByEmail(d3.users, e).Some? && UserByEmail(d3.users, e).value.id == UserByEmail(start.users, e).value.id
    {
      UpsertKeepsOtherBindings(start, Email1, now, e);
      UpsertKeepsOtherBindings(d1, Email2, now, e);
      UpsertKeepsOtherBindings(d2, Email3, now, e);
    }
    UpsertUserEffect(start, Email1, now);
    UpsertUserEffect(d1, Email2, now);
    UpsertUserEffect(d2, Email3, now);
    UpsertKeepsOtherBindings(start, Email1, now, Email2);
    UpsertKeepsOtherBindings(start, Email1, now, Email3);
    UpsertKeepsOtherBindings(d1, Email2, now, Email1);
    UpsertKeepsOtherBindings(d1, Email2, now, Email3);
    UpsertKeepsOtherBindings(d2, Email3, now, Email1);
    UpsertKeepsOtherBindings(d2, Email3, now, Email2);
    DistinctEmailsDistinctIds(d3.users, d3.nextUserId, UserByEmail(d3.users, Email1).value, UserByEmail(d3.users, Email2).value);
    DistinctEmailsDistinctIds(d3.users, d3.nextUserId, UserByEmail(d3.users, Email1).value, UserByEmail(d3.users, Email3).value);
    DistinctEmailsDistinctIds(d3.users, d3.nextUserId, UserByEmail(d3.users, Email2).value, UserByEmail(d3.users, Email3).value);
  }

  /** The five toggles of the seed, on the fresh requests r, r+1, r+2 by
      three distinct users: each inserts a vote. */
  method SeedVotes(table: FeatureRequestTable, r: int, u1: int, u2: int, u3: int, now: int)
    requires table.Valid()
    requires u1 != u2 && u1 != u3 && u2 != u3
    requires forall x :: r <= x < r + 5 ==> RequestById(table.db.requests, x).Some?
    requires forall i :: 0 <= i < |table.db.votes| ==> table.db.votes[i].request_id < r
    modifies table
    ensures table.Valid()
    ensures table.db.votes == old(table.db.votes) + Ballots(r, u1, u2, u3, old(table.db.nextVoteId), now)
    ensures table.db.users == old(table.db.users) && table.db.tokens == old(table.db.tokens)
    ensures table.db.nextUserId == old(table.db.nextUserId) && table.db.nextRequestId == old(table.db.nextRequestId)
    ensures table.db.nextVoteId == old(table.db.nextVoteId) + 5
    ensures VotedOnly(old(table.db.requests), table.db.requests, r)
    ensures forall x :: r <= x < r + 5 ==> RequestById(table.db.requests, x).Some?
  {
    ghost var v0 := table.db.votes;
    ghost var b := Ballots(r, u1, u2, u3, table.db.nextVoteId, now);
    BallotsFresh(v0, r, u1, u2, u3, table.db.nextVoteId, now);
    ghost var q0 := table.db.requests;
    assert VotedOnly(q0, q0, r);
    FirstBallots(table, r, u1, u2, u3, now, v0, b, q0);
    LastBallots(table, r, u1, u3, now, v0, b, q0);
    assert b[..5] == b;
  }

  /** The first three seed toggles: (r, u2), (r, u3), (r + 1, u1). */
  method FirstBallots(table: FeatureRequestTable, r: int, u1: int, u2: int, u3: int, now: int,
                      ghost v0: seq<Vote>, ghost b: seq<Vote>, ghost q0: seq<FeatureRequest>)
    requires table.Valid() && table.db.votes == v0 && VotedOnly(q0, table.db.requests, r)
    requires b == Ballots(r, u1, u2, u3, table.db.nextVoteId, now)
    requires !HasVote(v0, r, u2) && !HasVote(v0 + b[..1], r, u3) && !HasVote(v0 + b[..2], r + 1, u1)
    requires forall x :: r <= x < r + 5 ==> RequestById(table.db.requests, x).Some?
    modifies table
    ensures table.Valid()
    ensures table.db.votes == v0 + b[..3]
    ensures table.db.nextVoteId == old(table.db.nextVoteId) + 3
    ensures table.db.users == old(table.db.users)
    ensures table.db.tokens == old(table.db.tokens) && table.db.nextUserId == old(table.db.nextUserId)
    ensures table.db.nextRequestId == old(table.db.nextRequestId)
    ensures VotedOnly(q0, table.db.requests, r)
    ensures forall x :: r <= x < r + 5 ==> RequestById(table.db.requests, x).Some?
  {
    assert v0 + b[..0] == v0;
    ToggleStep(table, r, u2, now, v0, b, 0, r, q0);
    ToggleStep(table, r, u3, now, v0, b, 1, r, q0);
    ToggleStep(table, r + 1, u1, now, v0, b, 2, r, q0);
  }

  /** The last two seed toggles, once the first three ballots are in. */
  method LastBallots(table: FeatureRequestTable, r: int, u1: int, u3: int, now: int,
                     ghost v0: seq<Vote>, ghost b: seq<Vote>, ghost q0: seq<FeatureRequest>)
    requires table.Valid() && |b| == 5 && VotedOnly(q0, table.db.requests, r)
    requires table.db.votes == v0 + b[..3]
    requires b[3] == Vote(table.db.nextVoteId, r + 1, u3, now)
    requires b[4] == Vote(table.db.nextVoteId + 1, r + 2, u1, now)
    requires !HasVote(v0 + b[..3], r + 1, u3) && !HasVote(v0 + b[..4], r + 2, u1)
    requires forall x :: r <= x < r + 5 ==> RequestById(table.db.requests, x).Some?
    modifies table
    ensures table.Valid()
    ensures table.db.votes == v0 + b[..5]
    ensures table.db.nextVoteId == old(table.db.nextVoteId) + 2
    ensures table.db.users == old(table.db.users)
    ensures table.db.tokens == old(table.db.tokens) && table.db.nextUserId == old(table.db.nextUserId)
    ensures table.db.nextRequestId == old(table.db.nextRequestId)
    ensures VotedOnly(q0, table.db.requests, r)
    ensures forall x :: r <= x < r + 5 ==> RequestById(table.db.requests, x).Some?
  {
    ToggleStep(table, r + 1, u3, now, v0, b, 3, r, q0);
    ToggleStep(table, r + 2, u1, now, v0, b, 4, r, q0);
  }

  /** One seed toggle on a pair with no vote: it appends the next ballot. */
  method ToggleStep(table: FeatureRequestTable, requestId: int, userId: int, now: int,
                    ghost v0: seq<Vote>, ghost b: seq<Vote>, ghost t: nat, ghost r: int, ghost q0: seq<FeatureRequest>)
    requires table.Valid() && t < |b| && VotedOnly(q0, table.db.requests, r)
    requires b[t] == Vote(table.db.nextVoteId, requestId, userId, now)
    requires table.db.votes == v0 + b[..t]
    requires !HasVote(table.db.votes, requestId, userId)
    requires r <= requestId < r + 5
    requires forall x :: r <= x < r + 5 ==> RequestById(table.db.requests, x).Some?
    modifies table
    ensures table.Valid()
    ensures table.db.votes == v0 + b[..t + 1]
    ensures table.db.nextVoteId == old(table.db.nextVoteId) + 1
    ensures table.db.users == old(table.db.users)
    ensures table.db.tokens == old(table.db.tokens) && table.db.nextUserId == old(table.db.nextUserId)
    ensures table.db.nextRequestId == old(table.db.nextRequestId)
    ensures VotedOnly(q0, table.db.requests, r)
    ensures forall x :: r <= x < r + 5 ==> RequestById(table.db.requests, x).Some?
  {
    ToggleKeepsRequests(table.db, requestId, userId, now, r, r + 5);
    assert v0 + b[..t + 1] == v0 + b[..t] + [b[t]];
    ghost var before := table.db.requests;
    var _, _ := table.ToggleVote(requestId, userId, now);
    assert VotedOnly(before, table.db.requests, r);
    VotedOnlyTrans(q0, before, table.db.requests, r);
  }
}
