/** What the throttle guarantees over a run of consecutive cycles: the last
    trade time is always the stamp of the latest order, any two orders are at
    least `minSecondsBetweenTrades` apart, and so the k-th order of a run goes
    out no earlier than (k - 1) cooldowns after the run starts. */
module Throttle {
  import opened Wrappers
  import opened MainLoop

  /** The clock never runs backwards: the reading taken after an order is not
      earlier than the cycle's own time, and the next cycle's time is not
      earlier than it. */
  predicate ClockMonotone(rs: seq<Readings>) {
    && (forall i :: 0 <= i < |rs| ==> rs[i].now <= rs[i].clockAfterOrder)
    && (forall i :: 0 < i < |rs| ==> rs[i - 1].clockAfterOrder <= rs[i].now)
  }

  /** No order goes out in the cycles strictly between `k` and `j`. */
  predicate NoDispatchBetween(trace: seq<Outcome>, k: int, j: int)
    requires j <= |trace|
  {
    forall l :: k < l < j && 0 <= l ==> !trace[l].action.Dispatched?
  }

  /** The number of orders sent in a trace. */
  function Dispatches(trace: seq<Outcome>): nat
  {
    if trace == [] then 0
    else Dispatches(trace[..|trace| - 1]) + (if trace[|trace| - 1].action.Dispatched? then 1 else 0)
  }

  /** Stamps taken after orders never decrease along a monotone clock. */
  lemma {:induction false} StampsNondecreasing(rs: seq<Readings>, i: int, m: int)
    requires ClockMonotone(rs) && 0 <= i <= m < |rs|
    ensures rs[i].clockAfterOrder <= rs[m].clockAfterOrder
    ensures rs[i].now <= rs[m].now
    decreases m - i
  {
    if i < m {
      StampsNondecreasing(rs, i, m - 1);
    }
  }

  /** Skips keep the state across a run: after cycle `j - 1` the last trade
      time is the initial one when no order went out yet, and otherwise the
      clock reading stamped by the latest order. */
  lemma {:induction false} StateIsLatestStamp(cfg: Config, last: Option<int>, rs: seq<Readings>, j: int)
    requires 0 < j <= |rs|
    ensures var trace := Trace(cfg, last, rs);
      NoDispatchBetween(trace, -1, j) ==> trace[j - 1].lastTradeTime == last
    ensures var trace := Trace(cfg, last, rs);
      forall k :: 0 <= k < j && trace[k].action.Dispatched? && NoDispatchBetween(trace, k, j) ==>
        trace[j - 1].lastTradeTime == Some(rs[k].clockAfterOrder)
    decreases j
  {
    var trace := Trace(cfg, last, rs);
    TraceChains(cfg, last, rs, j - 1);
    if j > 1 {
      StateIsLatestStamp(cfg, last, rs, j - 1);
      assert NoDispatchBetween(trace, -1, j) ==> NoDispatchBetween(trace, -1, j - 1);
      forall k | 0 <= k < j && trace[k].action.Dispatched? && NoDispatchBetween(trace, k, j)
        ensures trace[j - 1].lastTradeTime == Some(rs[k].clockAfterOrder)
      {
        if k < j - 1 {
          assert NoDispatchBetween(trace, k, j - 1);
        }
      }
    }
  }

  /** Once an order has gone out, every later state holds a trade time no
      earlier than that order's stamp. */
  lemma {:induction false} StampPersists(cfg: Config, last: Option<int>, rs: seq<Readings>, i: int, m: int)
    requires ClockMonotone(rs) && 0 <= i < m <= |rs|
    requires Trace(cfg, last, rs)[i].action.Dispatched?
    ensures var t := Trace(cfg, last, rs)[m - 1].lastTradeTime;
      t.Some? && rs[i].clockAfterOrder <= t.value
    decreases m - i
  {
    var trace := Trace(cfg, last, rs);
    TraceChains(cfg, last, rs, m - 1);
    if i < m - 1 {
      StampPersists(cfg, last, rs, i, m - 1);
      if trace[m - 1].action.Dispatched? {
        StampsNondecreasing(rs, i, m - 1);
      }
    }
  }

  /** Any two orders of a run are at least `minSecondsBetweenTrades` apart:
      the later one's cycle time is that far past the earlier one's stamp. */
  lemma DispatchesAreSpaced(cfg: Config, last: Option<int>, rs: seq<Readings>, i: int, j: int)
    requires ClockMonotone(rs) && 0 <= i < j < |rs|
    requires Trace(cfg, last, rs)[i].action.Dispatched?
    requires Trace(cfg, last, rs)[j].action.Dispatched?
    ensures rs[j].now - rs[i].clockAfterOrder >= cfg.minSecondsBetweenTrades
  {
    StampPersists(cfg, last, rs, i, j);
    TraceChains(cfg, last, rs, j);
  }

  /** Two orders with none between them are at least
      `minSecondsBetweenTrades` apart, measured from the earlier one's stamp,
      whatever the clock does: the later order's cycle saw that stamp as its
      last trade time and passed the cooldown. */
  lemma ConsecutiveOrdersSpaced(cfg: Config, last: Option<int>, rs: seq<Readings>, i: int, j: int)
    requires 0 <= i < j < |rs|
    requires Trace(cfg, last, rs)[i].action.Dispatched?
    requires Trace(cfg, last, rs)[j].action.Dispatched?
    requires NoDispatchBetween(Trace(cfg, last, rs), i, j)
    ensures rs[j].now - rs[i].clockAfterOrder >= cfg.minSecondsBetweenTrades
  {
    StateIsLatestStamp(cfg, last, rs, j);
    TraceChains(cfg, last, rs, j);
  }

  /** One more cooldown adds `cooldown` seconds to a bound of `n - 1`. */
  lemma OneMoreCooldown(n: int, cooldown: int)
    ensures n * cooldown == (n - 1) * cooldown + cooldown
  {
  }

  /** While the first `j` cycles sent `n >= 1` orders, the state after them
      holds a stamp at least `n - 1` cooldowns past the run's start. */
  lemma {:induction false} StampBound(cfg: Config, last: Option<int>, rs: seq<Readings>, j: int)
    requires ClockMonotone(rs) && 0 < j <= |rs|
    requires Dispatches(Trace(cfg, last, rs)[..j]) >= 1
    ensures var trace := Trace(cfg, last, rs);
      var t := trace[j - 1].lastTradeTime;
      t.Some? && t.value >= rs[0].now + (Dispatches(trace[..j]) - 1) * cfg.minSecondsBetweenTrades
    decreases j
  {
    var trace := Trace(cfg, last, rs);
    var cooldown := cfg.minSecondsBetweenTrades;
    assert trace[..j][..j - 1] == trace[..j - 1];
    var before := Dispatches(trace[..j - 1]);
    TraceChains(cfg, last, rs, j - 1);
    if !trace[j - 1].action.Dispatched? {
      assert Dispatches(trace[..j]) == before;
      StampBound(cfg, last, rs, j - 1);
    } else {
      assert Dispatches(trace[..j]) == before + 1;
      StampsNondecreasing(rs, 0, j - 1);
      if before >= 1 {
        StampBound(cfg, last, rs, j - 1);
        OneMoreCooldown(before, cooldown);
      }
    }
  }

  /** The rate limit: the order sent at cycle `j`, the k-th of the run, goes
      out at least (k - 1) cooldowns after the run's first cycle. */
  lemma RateLimited(cfg: Config, last: Option<int>, rs: seq<Readings>, j: int)
    requires ClockMonotone(rs) && 0 <= j < |rs|
    requires Trace(cfg, last, rs)[j].action.Dispatched?
    ensures rs[j].now - rs[0].now >= (Dispatches(Trace(cfg, last, rs)[..j + 1]) - 1) * cfg.minSecondsBetweenTrades
  {
    var trace := Trace(cfg, last, rs);
    assert trace[..j + 1][..j] == trace[..j];
    var before := Dispatches(trace[..j]);
    assert Dispatches(trace[..j + 1]) == before + 1;
    StampsNondecreasing(rs, 0, j);
    if before >= 1 {
      StampBound(cfg, last, rs, j);
      TraceChains(cfg, last, rs, j);
      OneMoreCooldown(before, cfg.minSecondsBetweenTrades);
    }
  }
}
