/**
 * The absolute-time deadlines of `boost::asio::deadline_timer`, including the
 * two sentinels `neg_infin` (already passed, so a wait completes at once) and
 * `pos_infin` (never passes, so a wait completes only when cancelled).
 */
module Deadline {

  datatype Expiry = NegInfin | At(time: int) | PosInfin

  /** `expires_at() <= now`: the deadline is at or before the clock reading. */
  predicate Expired(e: Expiry, now: int) {
    match e
    case NegInfin => true
    case At(t) => t <= now
    case PosInfin => false
  }

  /**
   * `expires_from_now(d)` evaluated at clock reading `now`: a deadline that
   * has passed at clock reading `t` exactly when at least `d` has elapsed by then.
   */
  function ExpiresFromNow(now: int, d: int): (e: Expiry)
    ensures forall t :: Expired(e, t) <==> t - now >= d
  {
    At(now + d)
  }
}
