/** One cycle of the trading robot's main loop, stripped of its broker calls.
    The only state carried from cycle to cycle is the time of the last order
    attempt; everything the cycle learns from the outside world (the clock, the
    signal, the open positions, the ATR, the tick, the lot estimate, the
    broker's reply) arrives as a `Readings` value. */
module MainLoop {
  import opened Wrappers
  import opened Orders

  /** Seconds slept after a cycle that skipped (cooldown, position cap,
      invalid ATR, non-positive lots). */
  const SkipDelay: nat := 5

  /** Seconds slept at the end of every other cycle ("until next candle"). */
  const CycleDelay: nat := 10

  /** The configuration entries a cycle consults. */
  datatype Config = Config(
    minSecondsBetweenTrades: int,
    maxPositions: int,
    atrMultiplierSl: real,
    atrMultiplierTp: real)

  datatype Direction = Buy | Sell

  /** What one cycle reads from its collaborators, in seconds and price units.
      `atr` is `None` when the indicator value is NaN; `clockAfterOrder` is the
      clock reading taken right after an order is sent. */
  datatype Readings = Readings(
    now: int,
    signal: Option<string>,
    openPositions: int,
    atr: Option<real>,
    ask: real,
    bid: real,
    lots: real,
    retcode: int,
    clockAfterOrder: int)

  datatype SkipReason = Cooldown | PositionCap | InvalidAtr | NonPositiveLots

  /** An order as handed to `place_order`: the raw signal label, the pricing
      branch it selected, the bracket prices and the lots. */
  datatype Order = Order(signal: string, direction: Direction, entry: real, stopLoss: real, takeProfit: real, lots: real)

  /** What a cycle did: skipped early for a reason, found no signal, or sent
      an order and classified the reply. */
  datatype Action =
    | Skipped(reason: SkipReason)
    | NoSignal
    | Dispatched(order: Order, result: SendResult)

  /** A cycle's action, the delay it sleeps, and the new last trade time. */
  datatype Outcome = Outcome(action: Action, delay: nat, lastTradeTime: Option<int>)

  /** The throttle: a trade time is recorded and fewer than the configured
      seconds have passed since it. */
  predicate CoolingDown(cfg: Config, last: Option<int>, now: int) {
    last.Some? && now - last.value < cfg.minSecondsBetweenTrades
  }

  /** The ATR is a number and strictly positive. */
  predicate AtrUsable(atr: Option<real>) {
    atr.Some? && atr.value > 0.0
  }

  /** Only the label "buy" buys; every other label takes the sell branch. */
  function DirectionOf(name: string): Direction {
    if name == "buy" then Buy else Sell
  }

  /** Profit per unit of moving from `entry` to `price` in direction `d`. */
  function Gain(d: Direction, entry: real, price: real): real {
    if d == Buy then price - entry else entry - price
  }

  datatype Bracket = Bracket(entry: real, stopLoss: real, takeProfit: real)

  /** Entry, stop-loss and take-profit of an order: the entry is the ask for a
      buy and the bid for a sell; the stop loses `atrMultiplierSl` ATRs and the
      target gains `atrMultiplierTp` ATRs, whichever the direction. */
  function Brackets(cfg: Config, d: Direction, ask: real, bid: real, atr: real): (b: Bracket)
    ensures b.entry == (if d == Buy then ask else bid)
    ensures Gain(d, b.entry, b.stopLoss) == -(cfg.atrMultiplierSl * atr)
    ensures Gain(d, b.entry, b.takeProfit) == cfg.atrMultiplierTp * atr
  {
    if d == Buy then
      Bracket(ask, ask - cfg.atrMultiplierSl * atr, ask + cfg.atrMultiplierTp * atr)
    else
      Bracket(bid, bid + cfg.atrMultiplierSl * atr, bid - cfg.atrMultiplierTp * atr)
  }

  /** Every check of a cycle passes, so that the cycle sends an order. */
  predicate ChecksPass(cfg: Config, last: Option<int>, r: Readings) {
    && !CoolingDown(cfg, last, r.now)
    && r.openPositions < cfg.maxPositions
    && r.signal.Some?
    && AtrUsable(r.atr)
    && r.lots > 0.0
  }

  /** One loop iteration: the checks in the order `main_loop` makes them,
      each skip keeping the last trade time, and a sent order stamping the
      later clock reading whatever the broker replied. */
  function Cycle(cfg: Config, last: Option<int>, r: Readings): (o: Outcome)
    ensures o.action.Dispatched? <==> ChecksPass(cfg, last, r)
    ensures o.lastTradeTime == (if o.action.Dispatched? then Some(r.clockAfterOrder) else last)
    ensures o.delay == (if o.action.Skipped? then SkipDelay else CycleDelay)
  {
    if CoolingDown(cfg, last, r.now) then
      Outcome(Skipped(Cooldown), SkipDelay, last)
    else if r.openPositions >= cfg.maxPositions then
      Outcome(Skipped(PositionCap), SkipDelay, last)
    else if r.signal.None? then
      Outcome(NoSignal, CycleDelay, last)
    else if !AtrUsable(r.atr) then
      Outcome(Skipped(InvalidAtr), SkipDelay, last)
    else
      var d := DirectionOf(r.signal.value);
      var b := Brackets(cfg, d, r.ask, r.bid, r.atr.value);
      if r.lots <= 0.0 then
        Outcome(Skipped(NonPositiveLots), SkipDelay, last)
      else
        var order := Order(r.signal.value, d, b.entry, b.stopLoss, b.takeProfit, r.lots);
        Outcome(Dispatched(order, Classify(r.retcode)), CycleDelay, Some(r.clockAfterOrder))
  }

  /** The outcomes of consecutive cycles, each starting from the last trade
      time the one before it left. */
  function Trace(cfg: Config, last: Option<int>, rs: seq<Readings>): (trace: seq<Outcome>)
    ensures |trace| == |rs|
    decreases |rs|
  {
    if rs == [] then []
    else
      var o := Cycle(cfg, last, rs[0]);
      [o] + Trace(cfg, o.lastTradeTime, rs[1..])
  }

  /** Cycle `m` of a run starts from the state cycle `m - 1` left, or from
      the initial state. */
  lemma {:induction false} TraceChains(cfg: Config, last: Option<int>, rs: seq<Readings>, m: int)
    requires 0 <= m < |rs|
    ensures var trace := Trace(cfg, last, rs);
      trace[m] == Cycle(cfg, if m == 0 then last else trace[m - 1].lastTradeTime, rs[m])
    decreases m
  {
    if m > 0 {
      var o := Cycle(cfg, last, rs[0]);
      TraceChains(cfg, o.lastTradeTime, rs[1..], m - 1);
    }
  }

  /** A run that has produced `prefix` and reached state `before` at cycle
      `i` goes on with that cycle's outcome and the state it leaves. */
  lemma TraceExtends(cfg: Config, init: Option<int>, rs: seq<Readings>, i: int,
                     prefix: seq<Outcome>, before: Option<int>)
    requires 0 <= i < |rs|
    requires Trace(cfg, init, rs) == prefix + Trace(cfg, before, rs[i..])
    ensures var o := Cycle(cfg, before, rs[i]);
      Trace(cfg, init, rs) == (prefix + [o]) + Trace(cfg, o.lastTradeTime, rs[i + 1..])
  {
    assert rs[i..][1..] == rs[i + 1..];
  }

  // ---------------------------------------------------------------------------
  // The checks, one at a time, in the order the loop makes them.

  /** A cycle inside the cooldown skips with the short delay and keeps the
      last trade time, whatever else it reads. */
  lemma CooldownSkips(cfg: Config, last: Option<int>, r: Readings)
    requires last.Some? && r.now - last.value < cfg.minSecondsBetweenTrades
    ensures Cycle(cfg, last, r) == Outcome(Skipped(Cooldown), SkipDelay, last)
  {
  }

  /** Without a recorded trade time the cooldown never denies. */
  lemma UnsetNeverCoolsDown(cfg: Config, r: Readings)
    ensures Cycle(cfg, None, r).action != Skipped(Cooldown)
  {
  }

  /** The cooldown decides first: a cycle inside it has an outcome that
      depends only on `now` and the recorded time. The position count (read
      only after the cooldown test) and every other reading (ATR, tick, lots,
      reply, later clock, and the signal, which is computed before the test)
      leave it unchanged. */
  lemma CooldownIgnoresOtherReadings(cfg: Config, last: Option<int>, r: Readings, r': Readings)
    requires CoolingDown(cfg, last, r.now) && r'.now == r.now
    ensures Cycle(cfg, last, r) == Cycle(cfg, last, r')
  {
  }

  /** At the position cap no order goes out whatever the signal: outside the
      cooldown the cycle skips with the short delay and keeps its state. */
  lemma PositionCapSkips(cfg: Config, last: Option<int>, r: Readings)
    requires r.openPositions >= cfg.maxPositions
    ensures !Cycle(cfg, last, r).action.Dispatched?
    ensures Cycle(cfg, last, r).delay == SkipDelay
    ensures Cycle(cfg, last, r).lastTradeTime == last
    ensures !CoolingDown(cfg, last, r.now) ==> Cycle(cfg, last, r).action == Skipped(PositionCap)
  {
  }

  /** Without a signal no order goes out and the state is kept; when both
      throttle checks pass the cycle ends with the long delay. */
  lemma NoSignalWaits(cfg: Config, last: Option<int>, r: Readings)
    requires r.signal.None?
    ensures !Cycle(cfg, last, r).action.Dispatched?
    ensures Cycle(cfg, last, r).lastTradeTime == last
    ensures !CoolingDown(cfg, last, r.now) && r.openPositions < cfg.maxPositions ==>
      Cycle(cfg, last, r) == Outcome(NoSignal, CycleDelay, last)
  {
  }

  /** A NaN or non-positive ATR never lets an order out and keeps the state;
      with a signal and both throttle checks passed it is the reason to skip. */
  lemma InvalidAtrSkips(cfg: Config, last: Option<int>, r: Readings)
    requires !AtrUsable(r.atr)
    ensures !Cycle(cfg, last, r).action.Dispatched?
    ensures Cycle(cfg, last, r).lastTradeTime == last
    ensures !CoolingDown(cfg, last, r.now) && r.openPositions < cfg.maxPositions && r.signal.Some? ==>
      Cycle(cfg, last, r) == Outcome(Skipped(InvalidAtr), SkipDelay, last)
  {
  }

  /** With a positive ATR and positive multipliers, the stop-loss lies strictly
      on the loss side of the entry and the take-profit strictly on the profit
      side. */
  lemma BracketsOnCorrectSides(cfg: Config, d: Direction, ask: real, bid: real, atr: real)
    requires atr > 0.0 && cfg.atrMultiplierSl > 0.0 && cfg.atrMultiplierTp > 0.0
    ensures var b := Brackets(cfg, d, ask, bid, atr);
      && (d == Buy ==> b.stopLoss < b.entry < b.takeProfit)
      && (d == Sell ==> b.takeProfit < b.entry < b.stopLoss)
  {
  }

  /** A non-positive lot estimate never lets an order out and keeps the
      state; past the ATR check it is the reason to skip. */
  lemma NonPositiveLotsSkips(cfg: Config, last: Option<int>, r: Readings)
    requires r.lots <= 0.0
    ensures !Cycle(cfg, last, r).action.Dispatched?
    ensures Cycle(cfg, last, r).lastTradeTime == last
    ensures !CoolingDown(cfg, last, r.now) && r.openPositions < cfg.maxPositions && r.signal.Some? && AtrUsable(r.atr) ==>
      Cycle(cfg, last, r) == Outcome(Skipped(NonPositiveLots), SkipDelay, last)
  {
  }

  /** When every check passes the order goes out with the signal's label, the
      pricing branch it selects, the bracket prices and the estimated lots;
      the reply is a failure
      exactly when its code is not `TRADE_RETCODE_DONE`; and the state becomes
      the later clock reading. */
  lemma DispatchSendsBracketedOrder(cfg: Config, last: Option<int>, r: Readings)
    requires ChecksPass(cfg, last, r)
    ensures var o := Cycle(cfg, last, r);
      var d := DirectionOf(r.signal.value);
      var b := Brackets(cfg, d, r.ask, r.bid, r.atr.value);
      && o.action == Dispatched(Order(r.signal.value, d, b.entry, b.stopLoss, b.takeProfit, r.lots), o.action.result)
      && (o.action.result.Failed? <==> r.retcode != TradeRetcodeDone)
      && o.delay == CycleDelay
      && o.lastTradeTime == Some(r.clockAfterOrder)
  {
  }

  /** The broker's reply changes neither the delay nor the new last trade
      time: a failed order is throttled like a placed one. */
  lemma ReplyDoesNotAffectThrottle(cfg: Config, last: Option<int>, r: Readings, code: int)
    ensures Cycle(cfg, last, r.(retcode := code)).lastTradeTime == Cycle(cfg, last, r).lastTradeTime
    ensures Cycle(cfg, last, r.(retcode := code)).delay == Cycle(cfg, last, r).delay
  {
  }

  /** After an order, a following cycle that reads a time within the cooldown
      of the clock reading stamped by that order is denied. */
  lemma FollowingCycleDenied(cfg: Config, last: Option<int>, r1: Readings, r2: Readings)
    requires Cycle(cfg, last, r1).action.Dispatched?
    requires r2.now - r1.clockAfterOrder < cfg.minSecondsBetweenTrades
    ensures Cycle(cfg, Cycle(cfg, last, r1).lastTradeTime, r2).action == Skipped(Cooldown)
  {
  }

  // ---------------------------------------------------------------------------
  // The robot: the loop's state and the loop itself.

  /** The running loop. Its one field is the process-wide last trade time. */
  class Robot {
    const config: Config
    var lastTradeTime: Option<int>

    /** A freshly started robot has no trade time recorded. */
    constructor (config: Config)
      ensures this.config == config && lastTradeTime == None
    {
      this.config := config;
      lastTradeTime := None;
    }

    /** One iteration of the loop body; each early `return` stands for a
        `continue` in `main_loop`. */
    method Step(r: Readings) returns (action: Action, delay: nat)
      modifies this
      ensures Outcome(action, delay, lastTradeTime) == Cycle(config, old(lastTradeTime), r)
    {
      if CoolingDown(config, lastTradeTime, r.now) {
        return Skipped(Cooldown), SkipDelay;
      }
      if r.openPositions >= config.maxPositions {
        return Skipped(PositionCap), SkipDelay;
      }
      if r.signal.Some? {
        if !AtrUsable(r.atr) {
          return Skipped(InvalidAtr), SkipDelay;
        }
        var direction := DirectionOf(r.signal.value);
        var b := Brackets(config, direction, r.ask, r.bid, r.atr.value);
        if r.lots <= 0.0 {
          return Skipped(NonPositiveLots), SkipDelay;
        }
        var result := Classify(r.retcode);
        lastTradeTime := Some(r.clockAfterOrder);
        action := Dispatched(Order(r.signal.value, direction, b.entry, b.stopLoss, b.takeProfit, r.lots), result);
      } else {
        action := NoSignal;
      }
      delay := CycleDelay;
    }

    /** A bounded run of the loop over the given cycles' readings. */
    method Run(cycles: seq<Readings>) returns (trace: seq<Outcome>)
      modifies this
      ensures trace == Trace(config, old(lastTradeTime), cycles)
      ensures lastTradeTime == if cycles == [] then old(lastTradeTime) else trace[|trace| - 1].lastTradeTime
    {
      trace := [];
      var i := 0;
      while i < |cycles|
        invariant 0 <= i <= |cycles|
        invariant Trace(config, old(lastTradeTime), cycles) == trace + Trace(config, lastTradeTime, cycles[i..])
        invariant lastTradeTime == if i == 0 then old(lastTradeTime) else trace[i - 1].lastTradeTime
        invariant |trace| == i
      {
        ghost var before := lastTradeTime;
        TraceExtends(config, old(lastTradeTime), cycles, i, trace, before);
        var action, delay := Step(cycles[i]);
        trace := trace + [Outcome(action, delay, lastTradeTime)];
        i := i + 1;
      }
    }
  }
}
