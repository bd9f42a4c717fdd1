/** The tail of `place_order`: the broker's reply to an order request is sorted
    into success or failure by its return code. */
module Orders {

  /** MetaTrader 5's `TRADE_RETCODE_DONE` ("request completed"). */
  const TradeRetcodeDone: int := 10009

  /** How `place_order` reports the reply: placed, or failed with the code. */
  datatype SendResult = Placed | Failed(retcode: int)

  /** A reply is a failure exactly when its return code is not
      `TRADE_RETCODE_DONE`; a failure carries the broker's code unchanged. */
  function Classify(retcode: int): (r: SendResult)
    ensures r.Placed? <==> retcode == TradeRetcodeDone
    ensures r.Failed? ==> r.retcode == retcode
  {
    if retcode != TradeRetcodeDone then Failed(retcode) else Placed
  }
}
