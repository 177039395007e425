/** Timers over a monotone clock in milliseconds (dhcp/client/timer.cpp). */
module Timers {

  function ExpiryAfter(now: nat, seconds: nat): nat { now + seconds * 1000 }

  predicate Expired(expires: nat, now: nat) { now >= expires }

  function RemainingMillis(expires: nat, now: nat): nat
  {
    if now > expires then 0 else expires - now
  }

  /** What a timer that is set at `start` means to its user at any later reading of the clock: it has
      expired exactly when that many seconds have passed, what remains is exactly how long one must
      wait for that, and a second reading never sees more remain than the first. */
  lemma RemainingIsExact(start: nat, seconds: nat, now: nat)
    requires start <= now
    ensures var expires := ExpiryAfter(start, seconds);
            && (Expired(expires, now) <==> now - start >= 1000 * seconds)
            && (forall later: nat :: now <= later ==>
                  (Expired(expires, later) <==> later - now >= RemainingMillis(expires, now)))
            && (forall later: nat :: now <= later ==>
                  RemainingMillis(expires, later) <= RemainingMillis(expires, now))
  {
  }

  class Timer {
    var mExpires: nat

    constructor ()
      ensures mExpires == 0
    {
      mExpires := 0;
    }

    method ExpireSeconds(now: nat, seconds: nat)
      modifies this
      ensures mExpires == ExpiryAfter(now, seconds)
      ensures forall later: nat :: now <= later ==> (Expired(mExpires, later) <==> later - now >= 1000 * seconds)
    {
      mExpires := now + seconds * 1000;
    }
  }
}
