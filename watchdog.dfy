/** The silence test of the main loop: subscriptions are refreshed once the
    whole minutes since the last processed message reach 11. */
module Watchdog {

  /** Minutes of silence after which subscriptions are refreshed. */
  const SILENCE_MINUTES: int := 11

  /** Whole minutes in a duration of `seconds`, truncated toward zero as a
      duration cast to minutes does. */
  function WholeMinutes(seconds: int): (m: int)
    ensures seconds >= 0 ==> 0 <= 60 * m <= seconds < 60 * m + 60
    ensures seconds < 0 ==> 60 * m - 60 < seconds <= 60 * m <= 0
  {
    if seconds >= 0 then seconds / 60 else -((-seconds) / 60)
  }

  /** The main loop's test, on clock readings in seconds. */
  predicate NeedsRefresh(now: int, lastMessage: int)
  {
    WholeMinutes(now - lastMessage) >= SILENCE_MINUTES
  }

  /** The refresh happens exactly when at least 660 seconds have passed; a
      clock that went backwards never triggers it. */
  lemma NeedsRefreshExactly(now: int, lastMessage: int)
    ensures NeedsRefresh(now, lastMessage) <==> now - lastMessage >= 60 * SILENCE_MINUTES
  {
  }

  /** A refresh leaves the time of the last message alone, so once the
      silence test holds it keeps holding at every later clock reading until
      a message arrives: the main loop refreshes again on every pass. */
  lemma SilenceKeepsRefreshing(now: int, later: int, lastMessage: int)
    requires NeedsRefresh(now, lastMessage) && now <= later
    ensures NeedsRefresh(later, lastMessage)
  {
    NeedsRefreshExactly(now, lastMessage);
    NeedsRefreshExactly(later, lastMessage);
  }
}
