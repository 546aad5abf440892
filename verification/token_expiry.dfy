/**
 * Whether the stored OAuth token is stale: it counts as expired 60 seconds before
 * its real lifetime runs out.
 */
module TokenExpiry {
  import opened Wrappers
  import opened Decimal
  import opened Models

  /** The safety margin, in seconds. */
  const ExpiredMarginSec: int := 60

  /**
   * Parsing the lifetime as an `i64` panics unless this holds; a missing `expires_in`
   * is read as "0".
   */
  predicate HasParsableLifetime(token: OAuthToken): (ok: bool)
    ensures token.expiresIn.None? ==> ok
    ensures ok && token.expiresIn.Some? ==> token.expiresIn.value != []
  {
    ParseShowNat(0);
    ParseI64(token.expiresIn.GetOr("0")).Some?
  }

  /** The lifetime in seconds: the stored text read as an `i64`; a token without one has lifetime zero. */
  function LifetimeSeconds(token: OAuthToken): (secs: int)
    requires HasParsableLifetime(token)
    ensures I64Min <= secs <= I64Max
    ensures token.expiresIn.Some? ==> ParseI64(token.expiresIn.value) == Some(secs)
    ensures token.expiresIn.None? ==> secs == 0
  {
    ParseI64(token.expiresIn.GetOr("0")).value
  }

  /** The last instant at which the token is still considered fresh. */
  function ExpiredWithMarginAt(token: OAuthToken): (at: Instant)
    requires HasParsableLifetime(token)
    ensures at < token.updatedAt + LifetimeSeconds(token)
    ensures token.expiresIn.None? ==> at == token.updatedAt - ExpiredMarginSec
  {
    token.updatedAt + (LifetimeSeconds(token) - ExpiredMarginSec)
  }

  /** `is_token_expired`: the margin-adjusted expiry lies strictly before `now`. */
  predicate IsTokenExpired(token: OAuthToken, now: Instant): (expired: bool)
    requires HasParsableLifetime(token)
    ensures token.updatedAt + LifetimeSeconds(token) <= now ==> expired
    ensures now <= token.updatedAt + LifetimeSeconds(token) - ExpiredMarginSec ==> !expired
  {
    ExpiredWithMarginAt(token) < now
  }

  /**
   * A lifetime written as a non-negative decimal number (as the token exchange stores it)
   * is parsable, and the token is expired exactly when `updated_at + expires_in - 60 < now`.
   */
  lemma StoredLifetime(token: OAuthToken, lifetime: nat, now: Instant)
    requires lifetime <= I64Max && token.expiresIn == Some(ShowNat(lifetime))
    ensures HasParsableLifetime(token) && LifetimeSeconds(token) == lifetime
    ensures IsTokenExpired(token, now) <==> token.updatedAt + lifetime - 60 < now
  {
    ParseShowNat(lifetime);
  }

  /** At the margin-adjusted expiry the token is still fresh; one second later it is expired. */
  lemma ExpiryBoundary(token: OAuthToken)
    requires HasParsableLifetime(token)
    ensures !IsTokenExpired(token, token.updatedAt + LifetimeSeconds(token) - 60)
    ensures IsTokenExpired(token, token.updatedAt + LifetimeSeconds(token) - 60 + 1)
  {
  }

  /** Once expired, a token stays expired as time goes on. */
  lemma ExpiredStaysExpired(token: OAuthToken, now: Instant, later: Instant)
    requires HasParsableLifetime(token) && now <= later
    requires IsTokenExpired(token, now)
    ensures IsTokenExpired(token, later)
  {
  }

  /** A longer lifetime never turns a fresh token into an expired one. */
  lemma LongerLifetimeStaysFresh(token: OAuthToken, longer: OAuthToken, now: Instant)
    requires HasParsableLifetime(token) && HasParsableLifetime(longer)
    requires longer.updatedAt == token.updatedAt
    requires LifetimeSeconds(token) <= LifetimeSeconds(longer)
    requires !IsTokenExpired(token, now)
    ensures !IsTokenExpired(longer, now)
  {
  }

  /** A missing lifetime behaves exactly like a stored "0": expired iff `updated_at - 60 < now`. */
  lemma MissingLifetimeIsZero(token: OAuthToken, now: Instant)
    requires token.expiresIn.None?
    ensures HasParsableLifetime(token)
    ensures HasParsableLifetime(token.(expiresIn := Some("0")))
    ensures IsTokenExpired(token, now) == IsTokenExpired(token.(expiresIn := Some("0")), now)
    ensures IsTokenExpired(token, now) <==> token.updatedAt - 60 < now
  {
    ParseShowNat(0);
  }

  /** Only `updated_at` and `expires_in` matter: tokens agreeing on them agree on expiry. */
  lemma OnlyTimingFieldsMatter(t1: OAuthToken, t2: OAuthToken, now: Instant)
    requires t1.updatedAt == t2.updatedAt && t1.expiresIn == t2.expiresIn
    requires HasParsableLifetime(t1)
    ensures HasParsableLifetime(t2) && IsTokenExpired(t1, now) == IsTokenExpired(t2, now)
  {
  }

  /**
   * The unit test: a 3600-second token updated at 2021-07-01T00:00:00+09:00 is fresh at
   * 00:59:00 and expired at 01:59:01 of that day.
   */
  lemma UnitTestIsTokenExpired(token: OAuthToken)
    requires token.expiresIn == Some("3600") && token.updatedAt == 1625065200
    ensures HasParsableLifetime(token)
    ensures !IsTokenExpired(token, 1625065200 + 59 * 60)
    ensures IsTokenExpired(token, 1625065200 + 3600 + 59 * 60 + 1)
  {
    assert ShowNat(3600) == "3600";
    StoredLifetime(token, 3600, 0);
  }
}
