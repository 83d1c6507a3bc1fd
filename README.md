# Single-flight DMA transmit guard of an STM32 UART firmware

This firmware, for an STM32F4 board, sends a greeting over USART6 to an HC-05
Bluetooth module. The transfer is DMA-driven and does not block. The model
covers the part of `Src/main.c` that has a correctness contract: the guard
that stops a second DMA transfer from starting while one is still in flight.

- `send_dma_nonblocking(buf, len)` checks its request in a fixed order. A NULL
  buffer or a zero length returns `HAL_ERROR`. A transfer already in flight
  (`dma_tx_busy`) returns `HAL_BUSY`. Otherwise the call hands the buffer to
  `HAL_UART_Transmit_DMA`. If the engine refuses, the result is `HAL_ERROR`.
  If it accepts, the call sets `dma_tx_busy` and returns `HAL_OK`.
- `HAL_UART_TxCpltCallback(huart)` is the transfer-complete event. When the
  instance is USART6, it clears `dma_tx_busy` and toggles LED PD15. For any
  other instance it does nothing.
- At boot, `main` copies the greeting into the static 128-byte `tx_buf`,
  clamping the length to `TX_BUFSIZE`. It then submits the buffer and enters
  the halting `Error_Handler` if the result is not `HAL_OK`.

The files:

- `hal.dfy` (module `Hal`): the HAL types the code uses. These are bytes, the
  16-bit length, `HAL_StatusTypeDef` and the UART instance identity.
- `tx_spec.dfy` (module `TxSpec`): the guard as pure transition functions
  `Send` and `Complete` over an abstract state. The state holds the busy
  flag, the PD15 level and a count of engine calls.
- `tx_trace.dfy` (module `TxTrace`): the two entry points interleaved as an
  arbitrary sequence of atomic events. This module proves the single-flight
  properties of every such sequence.
- `firmware.dfy` (module `Firmware`): the class `Coordinator`. Its fields are
  the flag, `tx_buf` (an array), PD15 and a `halted` flag for
  `Error_Handler`. Its methods update those fields in place and are proved to
  follow `TxSpec` step by step. The module also holds `strlen`, the greeting,
  the boot sequence, and `Replay`, which runs the class through any event
  sequence.

The return value of `HAL_UART_Transmit_DMA` is foreign. It is a parameter
(`engineReply`) that the model consults only when the call is actually made.
Ghost fields count these calls and record the buffer and length the last
one was handed.

Facts about the code that the model keeps:

- The greeting `"Hello from STM32 via HC-05\r\n"` is 28 bytes by `strlen`.
- There is no button trigger and no debounce. Transfers start only from the
  boot-time call.
- A malformed request and an engine refusal both return `HAL_ERROR`. There is
  no separate "hardware rejected" status.
- Any non-`HAL_OK` reply from the engine becomes `HAL_ERROR`. That includes
  the engine's own `HAL_BUSY` and `HAL_TIMEOUT`.
- The only status signal is the PD15 toggle on completion. There is no
  "started" or "failed" indicator.

## Model

| member | source | states |
|---|---|---|
| `Hal.ToU16` | Src/main.c:94 | the `(uint16_t)` cast keeps the value of any length below 65536 and otherwise agrees with it modulo 65536 |
| `TxSpec.Send` | Src/main.c:64-77 | returns only HAL_OK, HAL_BUSY or HAL_ERROR. It returns HAL_OK exactly when the buffer is non-NULL, the length is non-zero, nothing is in flight and the engine accepts. It returns HAL_BUSY exactly when the request is well-formed and a transfer is in flight. A malformed request returns HAL_ERROR even while busy. The engine is called once exactly when both checks pass. The flag is set only by a success and never cleared. An engine refusal leaves the guard idle. PD15 is untouched |
| `TxSpec.Complete` | Src/main.c:243-250 | a USART6 completion clears the flag, toggles PD15 and makes no engine call. Any other instance leaves the state unchanged |
| `TxSpec.RetryAfterRefusal` | Src/main.c:70-76 | after an engine refusal the next well-formed call reaches the engine again and returns HAL_OK if the engine accepts. That makes two engine calls in all |
| `TxSpec.CompletionEnablesSend` | Src/main.c:66-76 | after a USART6 completion a well-formed call that the engine accepts returns HAL_OK, whatever the state was before |
| `TxTrace.IdleOnlyByCompletion` | Src/main.c:243-250 | in any event sequence, if the guard is busy after `a` events and idle after `b`, some event in between is a USART6 completion |
| `TxTrace.BusyOnlyBySuccess` | Src/main.c:70-76 | in any event sequence, if the guard is idle after `a` events and busy after `b`, some call in between returned HAL_OK |
| `TxTrace.MutualExclusion` | Src/main.c:53-77 | in any event sequence, between two calls that return HAL_OK there is a USART6 completion |
| `TxTrace.EngineCallsCounted` | Src/main.c:66-70 | over any event sequence, the engine-call count grows by exactly the number of well-formed calls not answered HAL_BUSY. That number is computed from the calls and their replies alone |
| `Firmware.Ascii` | Src/main.c:88 | the greeting literal has one byte per character. It contains a 0 byte exactly when the text contains a NUL character, so a NUL-free text ends only at its terminator |
| `Firmware.StrLen` | Src/main.c:89 | `strlen` of a NUL-terminated byte string is the index of its first NUL. Every byte before it is non-zero |
| `Firmware.HelloLength` | Src/main.c:88-90 | the greeting literal is NUL-terminated with `strlen` 28. That is within `TX_BUFSIZE`, so the clamp leaves it unchanged |
| `Firmware.Coordinator.constructor` | Src/main.c:41-53 | initially `dma_tx_busy` is false, `tx_buf` holds 128 zero bytes, PD15 is low, nothing has halted and the engine has not been called |
| `Firmware.Coordinator.SendDmaNonblocking` | Src/main.c:64-77 | the returned status and the new flag and engine count are exactly those of `TxSpec.Send` for `buf != NULL`. When the engine is called, it is handed `buf` and `len` unchanged. Nothing else changes |
| `Firmware.Coordinator.TxCpltCallback` | Src/main.c:243-250 | the new flag and PD15 level are exactly those of `TxSpec.Complete`. Nothing else changes |
| `Firmware.Coordinator.ErrorHandler` | Src/main.c:254-260 | the firmware is halted afterwards |
| `Firmware.Coordinator.PrepareMessage` | Src/main.c:87-91 | the length is `min(strlen(hello), TX_BUFSIZE)`. `tx_buf[0..len)` equals that prefix of the message, and the rest of `tx_buf` is unchanged |
| `Firmware.Boot` | Src/main.c:87-97 | after boot `tx_buf` starts with the 28 greeting bytes, followed by zeros, and the engine has been called once. That call was handed `tx_buf` with length 28, whose first 28 bytes are the greeting. The first send returns HAL_OK if the engine accepts and HAL_ERROR otherwise, never HAL_BUSY. The guard is busy exactly when it returned HAL_OK and halted exactly when it did not |
| `Firmware.Replay` | Src/main.c:53-77 | running the class through any sequence of atomic calls from reset gives the replies of the pure model. No two calls return HAL_OK without a USART6 completion between them |

## Left out

- Peripheral set-up (`SystemClock_Config`, `DMA_Init`, `USART6_Init`, `GPIO_Init`): fixed register configuration through HAL calls whose sources are not part of this model. Only the effect of `GPIO_Init` on PD15 (driven low) is kept. The ignored return value of `HAL_UART_Init` has no effect on the guard.
- The body of `HAL_UART_Transmit_DMA` and the DMA hardware: a foreign library. The model reduces it to the status it returns, given as a parameter. It does not model whether the engine reads `len` bytes within `buf`.
- The `while (1)` loop that blinks PD12 with `HAL_Delay`, the spinning inside `Error_Handler`, and `assert_failed`: infinite loops and timing. `Error_Handler` is modelled only as entering a halted state.
- Interrupt preemption and `volatile` semantics: each entry point is one atomic step, and interleavings are arbitrary sequences of such steps. This misses the window between the engine call and the flag being set, where a completion could in principle be lost.
- A debounced button trigger and separate failure indicators: the code has neither.
- Completion liveness (every accepted transfer is eventually followed by a completion): this depends on the DMA hardware, which is not modelled.
