/** The epoch clock of `State`: epochs last `2 * DELTA` seconds and are counted
    from the genesis timestamp. The wall clock is the parameter `now`. */
module Epochs {

  const DELTA: nat := 60

  /** `get_current_epoch`: the number of whole epochs elapsed since genesis,
      so `now` lies inside epoch `e`. */
  function GetCurrentEpoch(genesisTime: int, now: int): (e: nat)
    requires genesisTime <= now
    ensures genesisTime + e * (2 * DELTA) <= now < genesisTime + (e + 1) * (2 * DELTA)
  {
    (now - genesisTime) / (2 * DELTA)
  }

  /** `get_seconds_until_next_epoch_start`: the start of the next epoch minus
      `now`. It lies in 1 .. 2 * DELTA, and it is exactly the number of
      seconds before the epoch number changes. */
  function GetSecondsUntilNextEpochStart(genesisTime: int, now: int): (d: nat)
    requires 0 <= genesisTime <= now
    ensures 1 <= d <= 2 * DELTA
    ensures GetCurrentEpoch(genesisTime, now + d) == GetCurrentEpoch(genesisTime, now) + 1
    ensures GetCurrentEpoch(genesisTime, now + d - 1) == GetCurrentEpoch(genesisTime, now)
  {
    var e := GetCurrentEpoch(genesisTime, now);
    var nextEpochStart := (e + 1) * (2 * DELTA) + genesisTime;
    EpochOf(genesisTime, now + (nextEpochStart - now), e + 1);
    EpochOf(genesisTime, nextEpochStart - 1, e);
    nextEpochStart - now
  }

  /** The epoch of a time is the one whose window contains it. */
  lemma EpochOf(genesisTime: int, t: int, e: nat)
    requires genesisTime + e * (2 * DELTA) <= t < genesisTime + (e + 1) * (2 * DELTA)
    ensures GetCurrentEpoch(genesisTime, t) == e
  {
  }
}
