/** The browser pool of app/config/web_driver.py. The `Queue` is a sequence
    whose front is the next driver `get` returns; `put` appends. Creating a
    browser is left out: driver number `i` is the `i`-th one created, and
    `quit` is recorded by appending the driver to `quitDrivers`. */
module WebDriverPool {
  import opened Wrappers
  import Config

  /** A browser session made by `_create_driver`, told apart by the order
      in which it was created. */
  datatype Driver = Driver(serial: nat)

  predicate Distinct(s: seq<Driver>) {
    forall i, j | 0 <= i < j < |s| :: s[i] != s[j]
  }

  /** The first `n` drivers created. */
  function Fresh(n: nat): (r: seq<Driver>)
    ensures |r| == n && Distinct(r)
  {
    seq(n, i requires 0 <= i < n => Driver(i))
  }

  /** Moving the front driver to the back keeps the drivers distinct. */
  lemma RotateDistinct(s: seq<Driver>)
    requires s != [] && Distinct(s)
    ensures Distinct(s[1..] + [s[0]])
  {
    var t := s[1..] + [s[0]];
    forall i, j | 0 <= i < j < |t|
      ensures t[i] != t[j]
    {
      if j == |t| - 1 {
        assert t[i] == s[i + 1] && t[j] == s[0];
      } else {
        assert t[i] == s[i + 1] && t[j] == s[j + 1];
      }
    }
  }

  class WebDriver {
    var maxDrivers: int
    /** The queued drivers, front first. */
    var pool: seq<Driver>
    /** The drivers `quit` was called on, in order. */
    var quitDrivers: seq<Driver>

    /** `Queue(maxsize=max_drivers)` never holds more than `maxsize`
        drivers (a non-positive `maxsize` is unbounded), and the pool never
        holds the same driver twice. */
    predicate Valid()
      reads this
    {
      (maxDrivers > 0 ==> |pool| <= maxDrivers) && Distinct(pool)
    }

    /** `WebDriver(max_drivers)`: the pool is filled at once. */
    constructor (maxDrivers: int := Config.MaxThread)
      ensures this.maxDrivers == maxDrivers
      ensures pool == Fresh(if maxDrivers > 0 then maxDrivers else 0)
      ensures quitDrivers == []
      ensures Valid()
    {
      this.maxDrivers := maxDrivers;
      pool := [];
      quitDrivers := [];
      new;
      InitDriverPool();
    }

    /** `_init_driver_pool` on the new, empty queue: `max_drivers` drivers
        are created and queued; the queue has room for each. */
    method InitDriverPool()
      requires pool == []
      modifies this
      ensures pool == Fresh(if maxDrivers > 0 then maxDrivers else 0)
      ensures maxDrivers == old(maxDrivers) && quitDrivers == old(quitDrivers)
    {
      var n := if maxDrivers > 0 then maxDrivers else 0;
      for i := 0 to n
        invariant pool == Fresh(i)
        invariant maxDrivers == old(maxDrivers) && quitDrivers == old(quitDrivers)
      {
        assert Fresh(i) + [Driver(i)] == Fresh(i + 1);
        Put(Driver(i));
      }
    }

    /** `pool.get()` on a non-empty queue. */
    method Take() returns (d: Driver)
      requires pool != []
      modifies this
      ensures d == old(pool)[0] && pool == old(pool)[1..]
      ensures maxDrivers == old(maxDrivers) && quitDrivers == old(quitDrivers)
    {
      d := pool[0];
      pool := pool[1..];
    }

    /** `pool.put(d)` on a queue with room. */
    method Put(d: Driver)
      requires maxDrivers <= 0 || |pool| < maxDrivers
      modifies this
      ensures pool == old(pool) + [d]
      ensures maxDrivers == old(maxDrivers) && quitDrivers == old(quitDrivers)
    {
      pool := pool + [d];
    }

    /** `with get_driver() as d: body`: the front driver is taken, used by
        the body, and put back whether the body returns normally or raises
        (`body(d)` tells whether it raised). On an empty pool `get` waits
        for a driver no one else can return here, so nothing happens. */
    method GetDriver(body: Driver -> bool) returns (used: Option<Driver>, raised: bool)
      requires Valid()
      modifies this
      ensures Valid()
      ensures old(pool) == [] ==> used.None? && !raised && pool == old(pool)
      ensures old(pool) != [] ==> used == Some(old(pool)[0]) && raised == body(old(pool)[0])
      ensures old(pool) != [] ==> pool == old(pool)[1..] + [old(pool)[0]]
      ensures multiset(pool) == multiset(old(pool))
      ensures maxDrivers == old(maxDrivers) && quitDrivers == old(quitDrivers)
    {
      if pool == [] {
        return None, false;
      }
      RotateDistinct(pool);
      var d := Take();
      raised := body(d);
      // the `finally` clause
      Put(d);
      used := Some(d);
      assert old(pool) == [d] + old(pool)[1..];
    }

    /** `shutdown_pool`: every queued driver is taken and quit, front
        first, until the queue is empty. */
    method ShutdownPool()
      modifies this
      ensures pool == [] && quitDrivers == old(quitDrivers) + old(pool)
      ensures maxDrivers == old(maxDrivers)
      ensures Valid()
    {
      while pool != []
        invariant quitDrivers + pool == old(quitDrivers) + old(pool)
        invariant maxDrivers == old(maxDrivers)
        decreases |pool|
      {
        ghost var before := pool;
        var d := Take();
        assert before == [d] + pool;
        quitDrivers := quitDrivers + [d];
      }
      assert quitDrivers + [] == quitDrivers;
    }

    /** `WebDriver.scroll_incrementally`: the same loop as
        `Settings.scroll_incrementally`, with one round of one second by
        default; a negative pause raises after the first scroll. */
    static method ScrollIncrementally(heights: nat -> int, pauseTime: real := 1.0, maxAttempts: int := 1)
      returns (scrolls: nat, pauses: nat, slept: real, lastHeight: int, raised: bool)
      ensures raised <==> maxAttempts > 0 && pauseTime < 0.0
      ensures raised ==> scrolls == 1 && pauses == 0 && slept == 0.0 && lastHeight == heights(0)
      ensures !raised ==> scrolls == Config.ScrollRounds(heights, maxAttempts)
      ensures maxAttempts == 1 ==> scrolls == 1
      ensures !raised ==> pauses == scrolls && slept == pauses as real * pauseTime
      ensures !raised ==> lastHeight == heights(scrolls)
    {
      scrolls, pauses, slept, lastHeight, raised := Config.ScrollIncrementally(heights, pauseTime, maxAttempts);
    }
  }

  /** Shutting down a valid pool quits every pooled driver exactly once. */
  method ShutdownQuitsEachOnce(w: WebDriver)
    requires w.Valid() && w.quitDrivers == []
    modifies w
    ensures Distinct(w.quitDrivers) && multiset(w.quitDrivers) == multiset(old(w.pool))
    ensures w.pool == []
  {
    w.ShutdownPool();
  }
}
