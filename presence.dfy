/** The presence test of PiHoleAlerts: a device counts as active when its last
    DNS query lies strictly within the configured number of minutes of now. */
module Presence {

  function Abs(x: int): (r: nat)
    ensures r == x || r == -x
  {
    if x < 0 then -x else x
  }

  /** True when the two epoch-second timestamps lie strictly within
      `deltaMins` minutes of each other. Python integers are unbounded,
      so no wrap-around is involved. */
  function WithinDeltaMins(epochTime1: int, epochTime2: int, deltaMins: int): (r: bool)
    ensures r <==> -(deltaMins * 60) < epochTime1 - epochTime2 < deltaMins * 60
    ensures r ==> deltaMins > 0
  {
    var timeDifference := Abs(epochTime1 - epochTime2);
    var deltaMinutesInSeconds := deltaMins * 60;
    timeDifference < deltaMinutesInSeconds
  }

  /** The order of the two timestamps does not matter. */
  lemma WithinDeltaMinsSymmetric(epochTime1: int, epochTime2: int, deltaMins: int)
    ensures WithinDeltaMins(epochTime1, epochTime2, deltaMins) == WithinDeltaMins(epochTime2, epochTime1, deltaMins)
  {
  }

  /** The window is open: a difference of exactly `deltaMins * 60` seconds,
      in either direction, is outside it, and one second less is inside. */
  lemma WithinDeltaMinsBoundary(now: int, deltaMins: int)
    requires deltaMins > 0
    ensures !WithinDeltaMins(now, now - deltaMins * 60, deltaMins)
    ensures !WithinDeltaMins(now, now + deltaMins * 60, deltaMins)
    ensures WithinDeltaMins(now, now - deltaMins * 60 + 1, deltaMins)
    ensures WithinDeltaMins(now, now + deltaMins * 60 - 1, deltaMins)
  {
  }

  /** A five-minute window: 300 seconds apart is already inactive. */
  lemma FiveMinuteExample()
    ensures !WithinDeltaMins(1000, 700, 5)
    ensures WithinDeltaMins(1000, 701, 5)
  {
  }
}
