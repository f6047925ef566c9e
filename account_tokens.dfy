/**
 * The two single-purpose account tokens of backend/src/server.ts: the email verification
 * token, deleted once it is used, and the password reset token, marked used once it is
 * used. Times are milliseconds since the epoch, the current time is a parameter, and the
 * bcrypt hash of the new password is computed by the caller.
 */
module AccountTokens {
  import opened Base
  import opened Text
  import opened Errors

  datatype VerificationToken = VerificationToken(userId: int, expiresAt: int)

  datatype ResetToken = ResetToken(userId: int, expiresAt: int, usedAt: Option<int>)

  /** The columns of a `users` row these handlers change. */
  datatype Account = Account(passwordHash: string, emailVerifiedAt: Option<int>)

  function MissingToken(): AppError { BadRequest("MISSING_TOKEN", "Missing token") }
  function InvalidToken(): AppError { BadRequest("INVALID_TOKEN", "Invalid token") }
  function TokenExpired(): AppError { BadRequest("TOKEN_EXPIRED", "Token expired") }
  function TokenAlreadyUsed(): AppError { BadRequest("TOKEN_ALREADY_USED", "Token already used") }

  /** `new Date(expires_at).getTime() < Date.now()`: the expiry instant itself is still valid. */
  predicate Expired(expiresAt: int, now: int) {
    expiresAt < now
  }

  /** The checks on a looked-up verification token, in the handler's order. */
  function VerificationRejection(row: Option<VerificationToken>, now: int): (e: Option<AppError>)
    ensures row.None? ==> e == Some(InvalidToken())
    ensures row.Some? ==> (e.Some? <==> Expired(row.value.expiresAt, now))
    ensures e.Some? ==> e == Some(InvalidToken()) || e == Some(TokenExpired())
  {
    if row.None? then Some(InvalidToken())
    else if Expired(row.value.expiresAt, now) then Some(TokenExpired())
    else None
  }

  /** The checks on a looked-up reset token: unknown, then used, then expired. */
  function ResetRejection(row: Option<ResetToken>, now: int): (e: Option<AppError>)
    ensures e.None? <==> row.Some? && row.value.usedAt.None? && !Expired(row.value.expiresAt, now)
    ensures row.None? ==> e == Some(InvalidToken())
    ensures row.Some? && row.value.usedAt.Some? ==> e == Some(TokenAlreadyUsed())
    ensures row.Some? && row.value.usedAt.None? && Expired(row.value.expiresAt, now) ==> e == Some(TokenExpired())
  {
    if row.None? then Some(InvalidToken())
    else if row.value.usedAt.Some? then Some(TokenAlreadyUsed())
    else if Expired(row.value.expiresAt, now) then Some(TokenExpired())
    else None
  }

  /** A used reset token stays unusable, whatever the time: it never becomes merely expired. */
  lemma UsedTokenNeverAccepted(row: ResetToken, now: int, later: int)
    requires row.usedAt.Some?
    ensures ResetRejection(Some(row), later) == Some(TokenAlreadyUsed())
    ensures ResetRejection(Some(row), now) == ResetRejection(Some(row), later)
  {
  }

  /** An unused token accepted at `now` is also accepted at any earlier time. */
  lemma AcceptanceIsMonotone(row: ResetToken, earlier: int, now: int)
    requires earlier <= now && ResetRejection(Some(row), now).None?
    ensures ResetRejection(Some(row), earlier).None?
  {
  }

  function Lookup<V>(m: map<string, V>, key: string): (r: Option<V>)
    ensures r.Some? <==> key in m
    ensures r.Some? ==> r.value == m[key]
  {
    if key in m then Some(m[key]) else None
  }

  /** `req.query.token || req.body?.token`: an empty query value falls through to the body. */
  function ChosenToken(queryToken: Option<string>, bodyToken: Option<string>): (t: Option<string>)
    ensures queryToken.Some? && queryToken.value != "" ==> t == queryToken
    ensures !(queryToken.Some? && queryToken.value != "") ==> t == bodyToken
  {
    if queryToken.Some? && queryToken.value != "" then queryToken else bodyToken
  }

  /** The reset body schema: a non-empty token and a password of 8 to 128 characters. */
  function ResetIssues(token: Option<string>, newPassword: Option<string>): (issues: seq<string>)
    ensures issues == [] <==>
      token.Some? && |token.value| >= 1 && newPassword.Some? && 8 <= |newPassword.value| <= 128
    ensures "token" in issues <==> !(token.Some? && |token.value| >= 1)
    ensures "newPassword" in issues <==> !(newPassword.Some? && 8 <= |newPassword.value| <= 128)
  {
    (if token.Some? && |token.value| >= 1 then [] else ["token"]) +
    (if newPassword.Some? && 8 <= |newPassword.value| <= 128 then [] else ["newPassword"])
  }

  /** `String(req.query.token || '').trim()`: no whitespace at either end, a trimmed token kept as is. */
  function QueryToken(queryToken: Option<string>): (t: string)
    ensures queryToken.None? ==> t == ""
    ensures t == [] || (!IsJsWhitespace(t[0]) && !IsJsWhitespace(t[|t| - 1]))
    ensures queryToken.Some? && (queryToken.value == [] ||
      (!IsJsWhitespace(queryToken.value[0]) && !IsJsWhitespace(queryToken.value[|queryToken.value| - 1])))
      ==> t == queryToken.value
  {
    var s := if queryToken.Some? then queryToken.value else "";
    TrimmedEnds(s);
    if s == [] || (!IsJsWhitespace(s[0]) && !IsJsWhitespace(s[|s| - 1])) then
      TrimUnchanged(s);
      Trim(s)
    else Trim(s)
  }

  class AccountStore {
    var accounts: map<int, Account>
    var verificationTokens: map<string, VerificationToken>
    var resetTokens: map<string, ResetToken>

    constructor ()
      ensures accounts == map[] && verificationTokens == map[] && resetTokens == map[]
    {
      accounts := map[];
      verificationTokens := map[];
      resetTokens := map[];
    }

    /** `GET /auth/verify-email?token=...`. */
    method VerifyEmail(queryToken: Option<string>, now: int) returns (res: Result<(), AppError>)
      modifies this
      ensures resetTokens == old(resetTokens)
      ensures var token := QueryToken(queryToken);
        (token == "" ==> res == Failure(MissingToken())) &&
        (token != "" && VerificationRejection(Lookup(old(verificationTokens), token), now).Some? ==>
           res == Failure(VerificationRejection(Lookup(old(verificationTokens), token), now).value)) &&
        (res.Failure? ==> accounts == old(accounts) && verificationTokens == old(verificationTokens)) &&
        (res.Success? ==>
           token != "" && token in old(verificationTokens) &&
           !Expired(old(verificationTokens)[token].expiresAt, now) &&
           verificationTokens == old(verificationTokens) - {token} &&
           VerificationRejection(Lookup(verificationTokens, token), now) == Some(InvalidToken()) &&
           var u := old(verificationTokens)[token].userId;
           accounts == if u in old(accounts) then old(accounts)[u := old(accounts)[u].(emailVerifiedAt := Some(now))]
                       else old(accounts))
      ensures res.Success? <==>
        var token := QueryToken(queryToken);
        token != "" && VerificationRejection(Lookup(old(verificationTokens), token), now).None?
    {
      var token := QueryToken(queryToken);
      if token == "" {
        return Failure(MissingToken());
      }
      var rejection := VerificationRejection(Lookup(verificationTokens, token), now);
      if rejection.Some? {
        return Failure(rejection.value);
      }
      var u := verificationTokens[token].userId;
      if u in accounts {
        accounts := accounts[u := accounts[u].(emailVerifiedAt := Some(now))];
      }
      verificationTokens := verificationTokens - {token};
      return Success(());
    }

    /** `POST /auth/reset-password`; `hash` is the bcrypt hash of the new password. */
    method ResetPassword(queryToken: Option<string>, bodyToken: Option<string>, newPassword: Option<string>,
                         now: int, hash: string)
      returns (res: Result<(), AppError>)
      modifies this
      ensures verificationTokens == old(verificationTokens)
      ensures var token := ChosenToken(queryToken, bodyToken);
        var issues := ResetIssues(token, newPassword);
        (issues != [] ==> res == Failure(BadRequest("VALIDATION_ERROR", "Invalid request", Some(Issues(issues))))) &&
        (issues == [] && ResetRejection(Lookup(old(resetTokens), token.value), now).Some? ==>
           res == Failure(ResetRejection(Lookup(old(resetTokens), token.value), now).value)) &&
        (res.Failure? ==> accounts == old(accounts) && resetTokens == old(resetTokens)) &&
        (res.Success? ==>
           issues == [] && ResetRejection(Lookup(old(resetTokens), token.value), now).None? &&
           var row := old(resetTokens)[token.value];
           resetTokens == old(resetTokens)[token.value := row.(usedAt := Some(now))] &&
           ResetRejection(Lookup(resetTokens, token.value), now) == Some(TokenAlreadyUsed()) &&
           accounts == if row.userId in old(accounts)
                       then old(accounts)[row.userId := old(accounts)[row.userId].(passwordHash := hash)]
                       else old(accounts))
      ensures res.Success? <==>
        var token := ChosenToken(queryToken, bodyToken);
        ResetIssues(token, newPassword) == [] && ResetRejection(Lookup(old(resetTokens), token.value), now).None?
    {
      var token := ChosenToken(queryToken, bodyToken);
      var issues := ResetIssues(token, newPassword);
      if issues != [] {
        return Failure(BadRequest("VALIDATION_ERROR", "Invalid request", Some(Issues(issues))));
      }
      var rejection := ResetRejection(Lookup(resetTokens, token.value), now);
      if rejection.Some? {
        return Failure(rejection.value);
      }
      var row := resetTokens[token.value];
      if row.userId in accounts {
        accounts := accounts[row.userId := accounts[row.userId].(passwordHash := hash)];
      }
      resetTokens := resetTokens[token.value := row.(usedAt := Some(now))];
      assert Lookup(resetTokens, token.value) == Some(row.(usedAt := Some(now)));
      return Success(());
    }
  }
}
