/** The firmware's transmit path as it runs: the module-level `dma_tx_busy`
    flag, the static `tx_buf`, LED PD15 and the halting error handler, with
    `send_dma_nonblocking`, the transfer-complete callback and the boot-time
    message preparation as methods that update them in place. */
module Firmware {
  import opened Hal
  import opened TxSpec
  import opened TxTrace

  /** `TX_BUFSIZE`: the capacity of `tx_buf`. */
  const TX_BUFSIZE: nat := 128

  /** The greeting text sent at boot. */
  const HelloText: string := "Hello from STM32 via HC-05\r\n"

  /** The bytes of an ASCII text, one per character. A NUL byte appears in
      them exactly where the text has a NUL character, so the C string of a
      NUL-free text ends at its own terminator. */
  function Ascii(text: string): (r: seq<byte>)
    requires forall i | 0 <= i < |text| :: text[i] as int < 0x80
    ensures |r| == |text|
    ensures 0 in r <==> '\0' in text
  {
    var r := seq(|text|, i requires 0 <= i < |text| => text[i] as int as byte);
    assert forall i | 0 <= i < |text| :: r[i] == 0 <==> text[i] == '\0';
    r
  }

  /** The greeting as the C string literal lays it out in memory: its bytes
      followed by the terminating NUL. */
  const Hello: seq<byte> := Ascii(HelloText) + [0]

  /** `strlen`: the number of bytes before the first NUL. */
  function StrLen(s: seq<byte>): (n: nat)
    requires 0 in s
    ensures n < |s| && s[n] == 0
    ensures forall i | 0 <= i < n :: s[i] != 0
    decreases |s|
  {
    if s[0] == 0 then 0 else 1 + StrLen(s[1..])
  }

  /** The greeting is 28 bytes long, so it fits in `tx_buf` unclamped. */
  lemma {:induction false} HelloLength()
    ensures 0 in Hello
    ensures StrLen(Hello) == 28 && StrLen(Hello) <= TX_BUFSIZE
    ensures Hello[..28] == Ascii(HelloText)
  {
  }

  /** The transmit side of the firmware. */
  class Coordinator {
    /** `dma_tx_busy`: a DMA transfer is in flight. */
    var busy: bool
    /** `tx_buf`: the static transmit buffer. */
    var txBuf: array<byte>
    /** The output level of LED PD15. */
    var led15: bool
    /** `Error_Handler` has been entered; the firmware no longer makes progress. */
    var halted: bool
    /** How many times `HAL_UART_Transmit_DMA` has been called. */
    ghost var engineCalls: nat
    /** The buffer and length handed to the most recent engine call. */
    ghost var lastBuf: array?<byte>
    ghost var lastLen: u16

    ghost predicate Valid()
      reads this
    {
      txBuf.Length == TX_BUFSIZE
    }

    /** The guard's state as the pure model sees it. */
    ghost function State(): TxState
      reads this
    {
      TxState(busy, led15, engineCalls)
    }

    /** Static initialisation and GPIO set-up: the flag is clear, `tx_buf` is
        zero-filled and PD15 is driven low. */
    constructor ()
      ensures Valid() && fresh(txBuf)
      ensures State() == Initial && !halted
      ensures forall i | 0 <= i < TX_BUFSIZE :: txBuf[i] == 0
    {
      busy := false;
      txBuf := new byte[TX_BUFSIZE](_ => 0);
      led15 := false;
      halted := false;
      engineCalls := 0;
      lastBuf, lastLen := null, 0;
    }

    /** `send_dma_nonblocking(buf, len)`. `engineReply` is the value
        `HAL_UART_Transmit_DMA` returns when it is called. */
    method SendDmaNonblocking(buf: array?<byte>, len: u16, engineReply: Status) returns (r: Status)
      requires Valid()
      modifies this`busy, this`engineCalls, this`lastBuf, this`lastLen
      ensures Valid()
      ensures (r, State()) == Send(old(State()), buf != null, len, engineReply)
      // When the engine is called, it is handed `buf` and `len` as they are.
      ensures if engineCalls != old(engineCalls) then lastBuf == buf && lastLen == len
              else lastBuf == old(lastBuf) && lastLen == old(lastLen)
    {
      if len == 0 || buf == null {
        return Error;
      }
      if busy {
        return Busy;
      }
      engineCalls := engineCalls + 1;
      lastBuf, lastLen := buf, len;
      if engineReply != Ok {
        return Error;
      }
      busy := true;
      return Ok;
    }

    /** `HAL_UART_TxCpltCallback(huart)` with `huart->Instance == instance`. */
    method TxCpltCallback(instance: Instance)
      requires Valid()
      modifies this`busy, this`led15
      ensures Valid()
      ensures State() == Complete(old(State()), instance)
    {
      if instance == Usart6 {
        busy := false;
        led15 := !led15;
      }
    }

    /** `Error_Handler`: from here on the firmware only spins. */
    method ErrorHandler()
      modifies this`halted
      ensures halted
    {
      halted := true;
    }

    /** Message preparation at boot: take the C string `hello`, clamp its
        length to `TX_BUFSIZE` and copy that many bytes to the front of
        `tx_buf`. The rest of `tx_buf` is left as it was. */
    method PrepareMessage(hello: seq<byte>) returns (len: nat)
      requires Valid() && 0 in hello
      modifies txBuf
      ensures Valid()
      ensures len == if StrLen(hello) > TX_BUFSIZE then TX_BUFSIZE else StrLen(hello)
      ensures txBuf[..len] == hello[..len]
      ensures txBuf[len..] == old(txBuf[len..])
    {
      len := StrLen(hello);
      if len > TX_BUFSIZE {
        len := TX_BUFSIZE;
      }
      forall i | 0 <= i < len {
        txBuf[i] := hello[i];
      }
    }
  }

  /** The start of `main` after peripheral set-up: prepare the greeting in
      `tx_buf`, submit it, and halt in `Error_Handler` if the submission does
      not return HAL_OK. `engineReply` is what the engine answers. */
  method Boot(engineReply: Status) returns (c: Coordinator, status: Status)
    ensures fresh(c) && c.Valid()
    ensures c.txBuf[..28] == Ascii(HelloText)
    ensures forall i | 28 <= i < TX_BUFSIZE :: c.txBuf[i] == 0
    ensures status == (if engineReply == Ok then Ok else Error)
    ensures c.busy <==> status == Ok
    ensures c.halted <==> status != Ok
    ensures c.engineCalls == 1
    // The one engine call is handed `tx_buf` and the greeting's length, 28.
    ensures c.lastBuf == c.txBuf && c.lastLen == 28
    ensures c.lastBuf[..c.lastLen] == Ascii(HelloText)
  {
    c := new Coordinator();
    var len := c.PrepareMessage(Hello);
    HelloLength();
    status := c.SendDmaNonblocking(c.txBuf, ToU16(len), engineReply);
    if status != Ok {
      c.ErrorHandler();
    }
  }

  /** Runs the firmware through an arbitrary sequence of entry-point calls,
      each one atomic, starting from reset. A well-formed call passes
      `tx_buf`, a malformed one passes NULL. The replies are those of the
      pure model, so no two calls return HAL_OK without a USART6 completion
      between them. */
  method Replay(events: seq<Event>) returns (replies: seq<Option<Status>>)
    ensures replies == Replies(Initial, events)
    ensures forall i, j | 0 <= i < j < |events| && replies[i] == Some(Ok) && replies[j] == Some(Ok) ::
              exists k :: i < k < j && EndsTransfer(events[k])
  {
    var c := new Coordinator();
    replies := [];
    var n := 0;
    while n < |events|
      invariant n <= |events|
      invariant c.Valid()
      invariant c.State() == Final(Initial, events[..n])
      invariant replies == Replies(Initial, events[..n])
    {
      var e := events[n];
      assert events[..n + 1][..n] == events[..n];
      match e {
        case SendEvent(present, len, reply) =>
          var buf := if present then c.txBuf else null;
          var r := c.SendDmaNonblocking(buf, len, reply);
          replies := replies + [Some(r)];
        case CompleteEvent(instance) =>
          c.TxCpltCallback(instance);
          replies := replies + [None];
      }
      n := n + 1;
    }
    assert events[..n] == events;
    forall i, j | 0 <= i < j < |events| && replies[i] == Some(Ok) && replies[j] == Some(Ok)
      ensures exists k :: i < k < j && EndsTransfer(events[k])
    {
      MutualExclusion(Initial, events, i, j);
    }
  }
}
