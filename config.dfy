/** The behavioural defaults of app/config/config.py and its
    `Settings.scroll_incrementally`. The page is an oracle of heights:
    `heights(0)` is the height read before the first round, `heights(j)`
    the height read at the end of round `j`. */
module Config {

  /** `MAX_THREAD`, `SEND_BATCH_SIZE`, `MAX_RETRY_ATTEMPTS` defaults. */
  const MaxThread: int := 10
  const SendBatchSize: int := 1
  const MaxRetryAttempts: int := 2

  /** Rounds `j`, `j + 1`, ... up to `m` are run; the first whose reading
      equals the one before it is the last. */
  function FirstSteady(heights: nat -> int, j: nat, m: nat): (r: nat)
    requires 1 <= j <= m
    ensures j <= r <= m
    ensures forall i | j <= i < r :: heights(i) != heights(i - 1)
    ensures r < m ==> heights(r) == heights(r - 1)
    decreases m - j
  {
    if j == m || heights(j) == heights(j - 1) then j
    else FirstSteady(heights, j + 1, m)
  }

  /** How many scroll rounds `scroll_incrementally` runs with at most
      `maxAttempts` of them (`range` of a non-positive count is empty). */
  function ScrollRounds(heights: nat -> int, maxAttempts: int): (r: nat)
    ensures maxAttempts <= 0 ==> r == 0
    ensures maxAttempts > 0 ==> 1 <= r <= maxAttempts
    ensures forall i | 1 <= i < r :: heights(i) != heights(i - 1)
    ensures 0 < r < maxAttempts ==> heights(r) == heights(r - 1)
  {
    if maxAttempts <= 0 then 0 else FirstSteady(heights, 1, maxAttempts)
  }

  /** The round count is the only one that stops at the first steady
      reading: the loop's exit exactly when the contract says. */
  lemma {:induction false} FirstSteadyUnique(heights: nat -> int, j: nat, m: nat, r: nat)
    requires 1 <= j <= r <= m
    requires forall i | j <= i < r :: heights(i) != heights(i - 1)
    requires r == m || heights(r) == heights(r - 1)
    ensures FirstSteady(heights, j, m) == r
    decreases m - j
  {
    if j < r {
      FirstSteadyUnique(heights, j + 1, m, r);
    }
  }

  /** A page that does not grow is scrolled once. */
  lemma SteadyPageScrolledOnce(heights: nat -> int, maxAttempts: int)
    requires maxAttempts > 0 && heights(1) == heights(0)
    ensures ScrollRounds(heights, maxAttempts) == 1
  {
  }

  /** A page that grows on every round uses every attempt. */
  lemma GrowingPageUsesEveryAttempt(heights: nat -> int, maxAttempts: int)
    requires maxAttempts > 0
    requires forall i: nat :: heights(i) < heights(i + 1)
    ensures ScrollRounds(heights, maxAttempts) == maxAttempts
  {
    assert forall i | 1 <= i < maxAttempts :: heights(i - 1) < heights(i);
    FirstSteadyUnique(heights, 1, maxAttempts, maxAttempts);
  }

  /** `Settings.scroll_incrementally`: each round scrolls, pauses for
      `pauseTime`, then reads the height; the loop ends at the first round
      whose reading equals the last one kept, and otherwise keeps the new
      reading. Returns the number of scrolls, of pauses, the total paused
      time and the last height kept. A negative pause makes the first
      `time.sleep` raise `ValueError` right after the first scroll; `raised`
      says so. */
  method ScrollIncrementally(heights: nat -> int, pauseTime: real := 2.0, maxAttempts: int := 3)
    returns (scrolls: nat, pauses: nat, slept: real, lastHeight: int, raised: bool)
    ensures raised <==> maxAttempts > 0 && pauseTime < 0.0
    ensures raised ==> scrolls == 1 && pauses == 0 && slept == 0.0 && lastHeight == heights(0)
    ensures !raised ==> scrolls == ScrollRounds(heights, maxAttempts)
    ensures !raised ==> pauses == scrolls && slept == pauses as real * pauseTime
    ensures !raised ==> lastHeight == heights(scrolls)
  {
    scrolls, pauses, lastHeight, raised := ScrollLoop(heights, pauseTime < 0.0, maxAttempts);
    slept := pauses as real * pauseTime;
  }

  /** The rounds of `scroll_incrementally`, where `negativePause` says
      whether `time.sleep(pause_time)` raises. */
  method ScrollLoop(heights: nat -> int, negativePause: bool, maxAttempts: int)
    returns (scrolls: nat, pauses: nat, lastHeight: int, raised: bool)
    ensures raised <==> maxAttempts > 0 && negativePause
    ensures raised ==> scrolls == 1 && pauses == 0 && lastHeight == heights(0)
    ensures !raised ==> scrolls == ScrollRounds(heights, maxAttempts)
    ensures !raised ==> pauses == scrolls && lastHeight == heights(scrolls)
  {
    lastHeight := heights(0);
    scrolls, pauses, raised := 0, 0, false;
    while scrolls < maxAttempts
      invariant forall i | 1 <= i <= scrolls :: heights(i) != heights(i - 1)
      invariant scrolls <= if maxAttempts > 0 then maxAttempts else 0
      invariant scrolls > 0 ==> !negativePause
      invariant pauses == scrolls
      invariant lastHeight == heights(scrolls)
      decreases maxAttempts - scrolls
    {
      scrolls := scrolls + 1;
      if negativePause {
        raised := true;
        return;
      }
      pauses := pauses + 1;
      var newHeight := heights(scrolls);
      if newHeight == lastHeight {
        FirstSteadyUnique(heights, 1, maxAttempts, scrolls);
        return;
      }
      lastHeight := newHeight;
    }
    if maxAttempts > 0 {
      FirstSteadyUnique(heights, 1, maxAttempts, scrolls);
    }
  }


}
