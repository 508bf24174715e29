/**
 * `POST /api/auth/login` (server/api/auth/login.post.ts): checks the email,
 * stores a magic token for it and mails the link.
 */
module LoginHandler {
  import opened Wrappers
  import opened Http
  import opened Email
  import opened FeatureRequestStore

  /** The success reply; the token is echoed only in development. */
  datatype LoginReply = LoginReply(devToken: Option<string>)

  /** Delivery of a message; true when it was handed over. */
  type Mailer = OutgoingEmail -> bool

  /** Neither CF_PAGES nor VERCEL is set. */
  predicate DevMode(env: Env) {
    !IsSet(env.cfPages) && !IsSet(env.vercel)
  }

  /** The handler, with the fresh token string as a parameter.  A missing,
      empty or non-string email gives EmailRequired and an address the
      validator refuses gives EmailInvalid, both without touching the store
      or sending anything.  Otherwise exactly one token row binding the
      token to the email is added (a token string already present makes the
      store throw, reported as StoreFailure with nothing stored or sent),
      and the magic-link message goes out; a failed send is reported but the
      token stays stored. */
  method Login(table: FeatureRequestTable, email: BodyValue, token: string, env: Env, mailer: Mailer, now: int)
    returns (r: Result<LoginReply, ApiError>, sent: Option<OutgoingEmail>)
    requires table.Valid()
    modifies table
    ensures table.Valid()
    ensures !(email.Str? && email.s != "") ==> r == Failure(EmailRequired) && sent.None? && table.db == old(table.db)
    ensures email.Str? && email.s != "" && !IsValidEmail(email.s) ==> r == Failure(EmailInvalid) && sent.None? && table.db == old(table.db)
    ensures email.Str? && IsValidEmail(email.s) && FindToken(old(table.db.tokens), token).Some?
            ==> r == Failure(StoreFailure) && sent.None? && table.db == old(table.db)
    ensures email.Str? && IsValidEmail(email.s) && FindToken(old(table.db.tokens), token).None? ==>
              && table.db == old(table.db).(tokens := old(table.db.tokens) + [MagicToken(token, email.s, now + TokenLifetimeMs, now)])
              && sent == Some(MagicLinkMessage(email.s, token, env.publicUrl))
              && r == if mailer(sent.value) then Success(LoginReply(if DevMode(env) then Some(token) else None))
                      else Failure(EmailSendFailed)
  {
    sent := None;
    if !(email.Str? && email.s != "") {
      return Failure(EmailRequired), sent;
    }
    if !IsValidEmail(email.s) {
      return Failure(EmailInvalid), sent;
    }
    var stored := table.CreateMagicToken(email.s, token, now);
    if stored.Failure? {
      return Failure(StoreFailure), sent;
    }
    var message := MagicLinkMessage(email.s, token, env.publicUrl);
    sent := Some(message);
    var emailSent := mailer(message);
    if !emailSent {
      return Failure(EmailSendFailed), sent;
    }
    r := Success(LoginReply(if DevMode(env) then Some(stored.value) else None));
  }

  /** The magic link completes the login: a token stored by a successful
      login at `now` verifies to the login's email at any time up to and
      including 15 minutes later, and verifying it removes exactly the row
      the login added. */
  lemma {:induction false} LoginThenVerify(tokens: seq<MagicToken>, token: string, email: string, now: int, t: int)
    requires FindToken(tokens, token).None?
    requires t <= now + TokenLifetimeMs
    ensures ConsumeToken(tokens + [MagicToken(token, email, now + TokenLifetimeMs, now)], token, t) == (tokens, Some(email))
  {
    var m := MagicToken(token, email, now + TokenLifetimeMs, now);
    var found := FindToken(tokens + [m], token);
    assert found.Some? ==> found.value == m;
    RemoveAppendedToken(tokens, m);
  }

  lemma {:induction false} RemoveAppendedToken(tokens: seq<MagicToken>, m: MagicToken)
    requires FindToken(tokens, m.token).None?
    ensures RemoveToken(tokens + [m], m.token) == tokens
  {
    if tokens == [] {
      assert [m][1..] == [];
    } else {
      assert (tokens + [m])[1..] == tokens[1..] + [m];
      assert tokens[0] in tokens;
      RemoveAppendedToken(tokens[1..], m);
    }
  }
}
