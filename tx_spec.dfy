/** The single-flight transmit guard of the firmware as pure transition
    functions over an abstract state. The class in module Firmware is proved
    to follow these functions step by step; the trace lemmas in module TxTrace
    are proved about them. */
module TxSpec {
  import opened Hal

  /** What the guard keeps between events:
      - `busy`: the `dma_tx_busy` flag (a transfer is in flight);
      - `led15`: the output level of LED PD15, toggled on each completion;
      - `engineCalls`: how many times the DMA transmit engine has been called. */
  datatype TxState = TxState(busy: bool, led15: bool, engineCalls: nat)

  /** The state right after reset: `dma_tx_busy` starts false and the GPIO
      initialisation drives PD15 low. */
  const Initial: TxState := TxState(false, false, 0)

  /** A call is well-formed when the buffer pointer is not NULL and the length is not 0. */
  predicate ValidRequest(bufPresent: bool, len: u16)
  {
    bufPresent && len > 0
  }

  /** `send_dma_nonblocking(buf, len)` from state `s`. `bufPresent` says whether
      `buf` is non-NULL; `engineReply` is what `HAL_UART_Transmit_DMA` would
      return if it were called, and is consulted only when the call is made.
      The result is the returned status and the state afterwards. */
  function Send(s: TxState, bufPresent: bool, len: u16, engineReply: Status): (r: (Status, TxState))
    // Only HAL_OK, HAL_BUSY and HAL_ERROR are ever returned.
    ensures r.0 in {Ok, Busy, Error}
    // Success exactly when the request is valid, nothing is in flight and the engine accepts.
    ensures r.0 == Ok <==> ValidRequest(bufPresent, len) && !s.busy && engineReply == Ok
    // HAL_BUSY exactly when the request is valid and a transfer is in flight:
    // an invalid request is HAL_ERROR even while busy.
    ensures r.0 == Busy <==> ValidRequest(bufPresent, len) && s.busy
    ensures !ValidRequest(bufPresent, len) ==> r.0 == Error
    // The engine is called once exactly when the request passes both checks, never otherwise.
    ensures r.1.engineCalls == s.engineCalls + (if ValidRequest(bufPresent, len) && !s.busy then 1 else 0)
    // The flag is set only by a success and never cleared here.
    ensures r.1.busy <==> s.busy || r.0 == Ok
    // An engine refusal leaves the guard idle, so a later call may retry.
    ensures ValidRequest(bufPresent, len) && !s.busy && engineReply != Ok ==> r.0 == Error && !r.1.busy
    ensures r.1.led15 == s.led15
  {
    if !ValidRequest(bufPresent, len) then (Error, s)
    else if s.busy then (Busy, s)
    else
      var called := s.(engineCalls := s.engineCalls + 1);
      if engineReply != Ok then (Error, called)
      else (Ok, called.(busy := true))
  }

  /** `HAL_UART_TxCpltCallback(huart)` from state `s`, where `instance` is
      `huart->Instance`. */
  function Complete(s: TxState, instance: Instance): (r: TxState)
    // A completion of USART6 ends the transfer and toggles PD15.
    ensures instance == Usart6 ==> !r.busy && r.led15 == !s.led15 && r.engineCalls == s.engineCalls
    // A completion of any other instance changes nothing.
    ensures instance != Usart6 ==> r == s
  {
    if instance == Usart6 then s.(busy := false, led15 := !s.led15) else s
  }

  /** After an engine refusal the very next well-formed call reaches the
      engine again and succeeds if the engine accepts. */
  lemma RetryAfterRefusal(s: TxState, len: u16, refusal: Status, again: u16)
    requires len > 0 && again > 0 && !s.busy && refusal != Ok
    ensures Send(s, true, len, refusal).0 == Error
    ensures Send(Send(s, true, len, refusal).1, true, again, Ok).0 == Ok
    ensures Send(Send(s, true, len, refusal).1, true, again, Ok).1.engineCalls == s.engineCalls + 2
  {
  }

  /** A USART6 completion always makes room for the next submission,
      whatever the state before it. */
  lemma CompletionEnablesSend(s: TxState, len: u16)
    requires len > 0
    ensures Send(Complete(s, Usart6), true, len, Ok).0 == Ok
  {
  }
}
