/** The wait between two claim passes (index.js:37-41, 140-141): the
    operator picks an interval of two, three or four hours, and before each
    wait a random whole number of minutes from 1 to 8 is taken off it. */
module Scheduler {

  /** The three choices the interval prompt offers. */
  datatype Interval = TwoHours | ThreeHours | FourHours {
    function Minutes(): nat {
      match this
      case TwoHours => 2 * 60
      case ThreeHours => 3 * 60
      case FourHours => 4 * 60
    }
  }

  /** `crypto.randomInt(1, 9)` draws from 1 to 8: its upper bound is
      exclusive. */
  const MinJitter: int := 1
  const MaxJitter: int := 8

  /** `chooseDelay.time - randomMinutes`, in minutes. */
  function NextDelay(interval: Interval, jitter: int): (d: int)
    requires MinJitter <= jitter <= MaxJitter
    ensures interval.Minutes() - MaxJitter <= d <= interval.Minutes() - MinJitter
    ensures 112 <= d <= 239
  {
    interval.Minutes() - jitter
  }

  /** Every delay in the range is the one some jitter draw gives, and no two
      draws give the same delay. */
  lemma DelayRangeIsCovered(interval: Interval, d: int)
    requires interval.Minutes() - MaxJitter <= d <= interval.Minutes() - MinJitter
    ensures exists jitter :: MinJitter <= jitter <= MaxJitter && NextDelay(interval, jitter) == d
    ensures forall j1, j2 ::
              (MinJitter <= j1 <= MaxJitter && MinJitter <= j2 <= MaxJitter
               && NextDelay(interval, j1) == d && NextDelay(interval, j2) == d) ==> j1 == j2
  {
    var jitter := interval.Minutes() - d;
    assert NextDelay(interval, jitter) == d;
  }
}
