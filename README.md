# FXAtomaticTrading main loop: a verified model

The robot in `Experts/FXAtomaticTrading.py` polls one MetaTrader 5 symbol
forever. Each pass of its `main_loop` computes a signal from indicators and
then makes a fixed sequence of checks:

1. a cooldown since the last order (`min_seconds_between_trades`);
2. a cap on open positions (`max_positions`);
3. whether there is a signal at all;
4. whether the ATR is a number and positive;
5. placing the stop-loss and take-profit `atr_multiplier_sl` and
   `atr_multiplier_tp` ATRs away from the ask (buy) or bid (sell);
6. a guard against a non-positive lot estimate;
7. sending the order and stamping `last_trade_time` with the clock.

A skip sleeps 5 seconds. Every other pass sleeps 10 seconds. The tail of
`place_order` reports a reply as failed exactly when its return code is not
`TRADE_RETCODE_DONE`.

The model has four modules:

- `Wrappers` (`wrappers.dfy`): the `Option` type.
- `Orders` (`orders.dfy`): the classification of the broker's reply.
- `MainLoop` (`main_loop.dfy`): the pieces below.
  - `Cycle` is the specification of one pass. It is a pure function from the
    configuration, the last trade time and the pass's `Readings` to an
    `Outcome`: the action taken, the delay and the new last trade time.
  - `Trace` chains passes together.
  - `Robot` is a class holding `lastTradeTime`. Its `Step` method is the loop
    body written imperatively, with an early `return` for each `continue`.
    Its `Run` method is a bounded `while` loop over a sequence of readings.
    Both are proved equal to `Cycle` and `Trace`.
  - Lemmas state each check's rule in the order the loop makes them.
- `Throttle` (`throttle.dfy`): what the cooldown guarantees over a whole run.
  Its spacing and rate-limit lemmas assume a clock that never runs backwards,
  except `ConsecutiveOrdersSpaced`, which needs no clock assumption.

Everything the loop obtains from outside is a field of `Readings`:

- the clock reading at the start of the cycle;
- the signal;
- the open-position count;
- the ATR, with `None` for NaN;
- the ask and bid;
- the lot estimate;
- the broker's return code;
- the clock reading taken after the order is sent.

Timestamps are integer seconds. Prices, ATR and lots are reals.

## Model

| member | source | states |
|---|---|---|
| `Orders.Classify` | Experts/FXAtomaticTrading.py:2-7 | a reply is reported as placed exactly when its return code is `TRADE_RETCODE_DONE` (10009); a failure carries the broker's code |
| `MainLoop.Brackets` | Experts/FXAtomaticTrading.py:59-66 | the entry is the ask for a buy and the bid for a sell; in either direction the stop-loss loses `atr_multiplier_sl`·ATR per unit and the take-profit gains `atr_multiplier_tp`·ATR |
| `MainLoop.BracketsOnCorrectSides` | Experts/FXAtomaticTrading.py:59-66 | with ATR > 0 and positive multipliers, a buy has SL < entry < TP and a sell has TP < entry < SL |
| `MainLoop.Cycle` | Experts/FXAtomaticTrading.py:31-83 | an order goes out exactly when all five checks pass; every other pass keeps `last_trade_time`, and an order sets it to the later clock reading; a skip sleeps 5 s, every other pass 10 s |
| `MainLoop.Trace` | Experts/FXAtomaticTrading.py:22-83 | a run has exactly one outcome per pass |
| `MainLoop.TraceChains` | Experts/FXAtomaticTrading.py:22-83 | each pass of a run is `Cycle` started from the `last_trade_time` the previous pass left, and the first pass from the run's initial value |
| `MainLoop.CooldownSkips` | Experts/FXAtomaticTrading.py:32-36 | with a recorded time and `now - last_trade_time < min_seconds_between_trades`, the pass skips with 5 s and keeps its state |
| `MainLoop.UnsetNeverCoolsDown` | Experts/FXAtomaticTrading.py:33 | with no trade time recorded, the cooldown never denies |
| `MainLoop.CooldownIgnoresOtherReadings` | Experts/FXAtomaticTrading.py:33-44 | a pass in cooldown has an outcome that depends only on `now` and the recorded time; the position count (read only after the cooldown test, line 40) and every other reading leave it unchanged |
| `MainLoop.PositionCapSkips` | Experts/FXAtomaticTrading.py:40-44 | with `open_pos >= max_positions`, no order goes out whatever the signal, the delay is 5 s and the state is kept; outside the cooldown the reason is the cap |
| `MainLoop.NoSignalWaits` | Experts/FXAtomaticTrading.py:47-83 | with no signal, no order goes out and the state is kept; once the throttle checks pass, the pass ends with the 10 s delay |
| `MainLoop.InvalidAtrSkips` | Experts/FXAtomaticTrading.py:53-56 | a NaN or non-positive ATR never lets an order out and keeps the state; with a signal it is the skip reason, with 5 s |
| `MainLoop.NonPositiveLotsSkips` | Experts/FXAtomaticTrading.py:70-74 | a lot estimate `<= 0` never lets an order out and keeps the state; past the ATR check it is the skip reason, with 5 s |
| `MainLoop.DispatchSendsBracketedOrder` | Experts/FXAtomaticTrading.py:59-79 | when every check passes, the order carries the raw signal label handed to `place_order`, the pricing branch it selected, the bracket prices and the estimated lots; the reply is a failure exactly when its code is not DONE; the new state is the later clock reading |
| `MainLoop.ReplyDoesNotAffectThrottle` | Experts/FXAtomaticTrading.py:78-79 | the broker's reply changes neither the delay nor the new `last_trade_time` |
| `MainLoop.FollowingCycleDenied` | Experts/FXAtomaticTrading.py:33-79 | after an order, a pass whose time is within `min_seconds_between_trades` of the stamped clock reading is denied by the cooldown |
| `MainLoop.Robot.constructor` | Experts/FXAtomaticTrading.py:15-16 | a new robot has no trade time recorded |
| `MainLoop.Robot.Step` | Experts/FXAtomaticTrading.py:31-83 | one pass of the loop body returns `Cycle`'s action and delay, and leaves `lastTradeTime` at `Cycle`'s new state |
| `MainLoop.Robot.Run` | Experts/FXAtomaticTrading.py:21-83 | a bounded run of the loop produces `Trace` of its readings and ends in the state the last pass left |
| `Throttle.StateIsLatestStamp` | Experts/FXAtomaticTrading.py:33-79 | across a run, `last_trade_time` is the initial value until the first order, and afterwards the clock reading stamped by the latest order |
| `Throttle.StampPersists` | Experts/FXAtomaticTrading.py:79 | with a monotone clock, once an order has gone out, every later state holds a trade time no earlier than that order's stamp |
| `Throttle.DispatchesAreSpaced` | Experts/FXAtomaticTrading.py:33-79 | with a monotone clock, any two orders of a run are separated by at least `min_seconds_between_trades`, measured from the earlier order's stamp |
| `Throttle.ConsecutiveOrdersSpaced` | Experts/FXAtomaticTrading.py:33-79 | with no clock assumption, two orders with none between them are at least `min_seconds_between_trades` apart, measured from the earlier order's stamp |
| `Throttle.StampBound` | Experts/FXAtomaticTrading.py:33-79 | with a monotone clock, after a run prefix with n ≥ 1 orders, the state holds a stamp at least (n − 1) cooldowns after the run's start |
| `Throttle.RateLimited` | Experts/FXAtomaticTrading.py:33-79 | with a monotone clock, the k-th order of a run goes out at least (k − 1)·`min_seconds_between_trades` after the run's first pass |

## Left out

- The MetaTrader 5 connection, login and disconnect (`connect_mt5` and `disconnect_mt5`, lines 17 and 87) are foreign calls and are not modelled.
- `mt5.order_send` and `mt5.symbol_info_tick` (lines 2, 60 and 64) are foreign calls. The ask, the bid and the return code are inputs.
- `fetch_ohlc`, `calc_indicators`, `generate_signal`, `estimate_lots_by_sl` and `count_open_positions` (lines 23-27, 40 and 70) are not part of this model. Their results are inputs.
- The lot estimate depends on the entry and stop-loss. The model takes the value the estimator returned for this pass and does not relate it to the prices.
- The start of `place_order` is not part of this model. That is the code that builds the request, before line 2.
- The ticket and comment that `place_order` prints are left out, along with the returned `result`. `main_loop` never uses them.
- `time.sleep` is not modelled as blocking; only the delay value chosen is recorded. The unbounded `while True` loop is modelled as a bounded run over a finite sequence of readings.
- `KeyboardInterrupt` and `finally` (lines 84-88) are process lifecycle and are left out.
- All `print` logging is left out.
- `close` (line 50) is read and never used, so it is not modelled.
- IEEE floating point is not modelled. Prices, ATR and lots are exact reals. NaN appears only where the loop tests for it: an ATR of `None`.
- Timestamps are whole seconds. `total_seconds()` at line 33 keeps fractions, so a gap that is less than one second short of the cooldown is rounded away.
- The signal is any string or none. Only "buy" takes the buy branch, and every other string takes the sell branch (the `else` at line 63). The set of labels `generate_signal` really emits is not modelled.
- Dry-run mode is not modelled. Line 94 shows the robot has a `dry_run` setting, and a dry-run branch would sit in the start of `place_order`, which is not part of this model. The model assumes live sending: `Dispatched`'s `result` stands for a live reply from `order_send`.
- Exceptions inside a pass are not modelled. Examples are `symbol_info_tick` returning `None` (lines 60 and 64), `order_send` returning `None` (line 3), and an empty frame at `df.iloc[-1]` (line 48). Any of these leaves `while True` through `finally` (lines 86-87) without the stamp at line 79, so the run ends. In the model every pass completes: `Dispatched` always stamps `clockAfterOrder`, and `Robot.Run` processes every reading.
- `Throttle.DispatchesAreSpaced`, `Throttle.StampPersists`, `Throttle.StampBound` and `Throttle.RateLimited` assume a clock that never runs backwards (`ClockMonotone`). The source reads naive local `datetime.now()` (lines 32 and 79), which can step back at a daylight-saving change or a clock adjustment. Such runs are not covered by these four lemmas. `Throttle.ConsecutiveOrdersSpaced` needs no clock assumption.
- The recorded `direction` of an order is the pricing branch chosen at lines 59-66, not necessarily the order type sent. `place_order` receives the raw label (line 78), and the order type it sends is decided in code that is not part of this model. `Order` keeps that label in its `signal` field.
- The module-level initial value of `last_trade_time` is not part of this model. A new `Robot` starts with no trade time recorded.

Behaviour of the code worth noting:

- The cooldown and position-cap checks run before the signal is consulted. A throttled pass with no signal therefore skips with the 5 s delay, not the 10 s one.
- A failed order is stamped exactly like a placed one.
- The new trade time is a fresh clock reading (line 79), not the pass's own `now`.
