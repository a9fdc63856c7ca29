# CLI UART server — Dafny model

This project models the OpenThread command-line interface server on a UART
(`src/cli/cli_uart.cpp`). The server owns two buffers:

- **Receive line buffer.** Incoming bytes are edited into this buffer.
  - CR or LF echoes a line break and completes the line. The line then goes
    to the command interpreter after at most one trailing LF and one trailing
    CR are stripped, and a new `> ` prompt is echoed.
  - BS or DEL erases the last character and echoes `\b \b`.
  - Any other byte is echoed and appended.
- **Transmit ring.** This is a fixed-capacity circular buffer.
  - `Output` appends as many bytes as fit and then pumps the driver.
  - `Send` hands the driver the longest contiguous run at the head, unless a
    send is already in flight.
  - The driver's completion (`SendDoneTask`) moves the head past the run and
    pumps again.

The project has three modules:

- `TxRing` (`ring.dfy`) holds the value-level ring arithmetic:
  - the logical view of a ring (`RingView`)
  - how much of a request is accepted (`AcceptedCount`)
  - the contiguous run a send takes (`ContiguousRun`)
  - the ring invariant over plain sequences, and the lemmas showing that
    appending, starting a send and retiring a send each keep it
- `LineEditing` (`line_editing.dfy`) is the receive path as a fold.
  - `Step` handles one byte and `Feed` folds it over the input, producing the
    pending line, the lines handed over and the echo.
  - It includes the source's unguarded receive path (see Findings).
- `CliUart` (`cli_uart.dfy`) holds the class `Uart`.
  - Its fields are the source's fields: the two buffers as arrays, and the
    counters `rxLength`, `txHead`, `txLength` and `sendLength`.
  - Its methods mirror the source's methods.
  - Each method is proved against the two specifications above.

The driver's send primitive `otPlatUartSend` is modelled by the ghost log
`sent`, which records every span handed to the driver. The interpreter's
`ProcessLine` is modelled by the ghost log `lines`, which records every line
handed to it. The ghost `accepted` records every byte `Output` took into the
ring. The central invariant says that the bytes sent, followed by the bytes
still queued and not in flight, are exactly the bytes accepted. `Drain`
concludes from it that, once the driver has completed every send, each
accepted byte has been handed over exactly once and in order.

## Model

| member | source | states |
|---|---|---|
| CliUart.Uart.constructor | src/cli/cli_uart.cpp:64-71 | Starts with an empty line, an empty ring at offset 0 and nothing in flight; the invariant holds. |
| CliUart.Uart.ReceiveTask | src/cli/cli_uart.cpp:78-125 | Processing a buffer of bytes in order takes the receive state to what `Feed` prescribes. This covers the pending line and the lines handed to the interpreter. The ring takes the longest prefix of the echo that fits. The invariant is kept. The queue grows by exactly the bytes echoed. A send already in flight stays the only one; otherwise at most one span is handed to the driver, which is then in flight. |
| CliUart.Uart.ReceiveByte | src/cli/cli_uart.cpp:86-123 | One byte of the switch is one `Step` of the specification fold. The queue grows by exactly the bytes echoed. A send already in flight stays the only one; otherwise at most one span is handed to the driver, which is then in flight. |
| CliUart.Uart.ReceiveTerminator | src/cli/cli_uart.cpp:88-100 | CR or LF empties the line. A non-empty line, stripped, is appended to the lines handed over. The ring takes what fits of CRNL followed by the prompt. The queue grows by exactly the bytes echoed. A send already in flight stays the only one; otherwise at most one span is handed to the driver, which is then in flight. |
| CliUart.Uart.ReceiveErase | src/cli/cli_uart.cpp:109-117 | BS or DEL does nothing on an empty line. Otherwise it removes exactly the last byte and the ring takes what fits of the erase string. The queue grows by exactly the bytes echoed. A send already in flight stays the only one; otherwise at most one span is handed to the driver, which is then in flight. |
| CliUart.Uart.ReceiveOrdinary | src/cli/cli_uart.cpp:119-122 | Another byte is appended to the line and echoed (as far as the ring has room), provided it and the completion NUL fit. Otherwise nothing changes. The queue grows by exactly the bytes echoed. A send already in flight stays the only one; otherwise at most one span is handed to the driver, which is then in flight. |
| CliUart.Uart.CompleteLine | src/cli/cli_uart.cpp:92-96 | A non-empty line is handed over stripped, and the NUL stored at its end stays in the buffer. The line is then empty and the ring is untouched. |
| CliUart.Uart.ProcessCommand | src/cli/cli_uart.cpp:127-146 | Hands the interpreter the line with at most one trailing LF and then one trailing CR removed, and empties the line. Each stripped position is overwritten with NUL and every other byte of the buffer is unchanged. |
| CliUart.Uart.Output | src/cli/cli_uart.cpp:148-168 | Returns the number of bytes accepted: all of them, or as many as fill the ring. Exactly those bytes are appended to the queue and to the accepted log. The head is unchanged and a send in flight is left alone. On an idle ring the contiguous run at the head goes in flight, and that front of the queue is appended to the driver log exactly when it is non-empty. |
| CliUart.Uart.Enqueue | src/cli/cli_uart.cpp:158-163 | The copy loop stores the bytes in order at the tail. The queue grows by exactly those bytes and the ring invariant is kept. |
| CliUart.Uart.Send | src/cli/cli_uart.cpp:182-202 | With a send in flight, nothing changes. Otherwise the longest contiguous run at the head goes in flight, and it is appended to the driver log exactly when it is non-empty. An idle ring is empty. |
| CliUart.Uart.SendDoneTask | src/cli/cli_uart.cpp:209-216 | The head moves past the span in flight, modulo the capacity. The queue loses exactly that span from its front. The next run is then sent. |
| CliUart.Uart.Drain | src/cli/cli_uart.cpp:204-216 | Repeated completions empty the ring. The driver has then received every accepted byte once, in order, as an extension of its earlier log. |
| CliUart.ReceivedOne | src/cli/cli_uart.cpp:86-123 | The receive relation for one byte is one `Step`, with the echo truncated to what fits in the ring. |
| CliUart.ReceivedTerminator | src/cli/cli_uart.cpp:88-100 | The terminator branch's effect on the state is the receive relation for that byte. |
| CliUart.ReceivedErase | src/cli/cli_uart.cpp:109-117 | The erase branch's effect on the state is the receive relation for that byte. |
| CliUart.ReceivedOrdinary | src/cli/cli_uart.cpp:119-122 | The default branch's effect on the state is the receive relation for that byte. |
| CliUart.AtMostOneSendStartedThen | src/cli/cli_uart.cpp:182-198 | Two calls that each leave a send in flight alone, and otherwise start at most one, together do the same. |
| CliUart.GrewWithAcceptedThen | src/cli/cli_uart.cpp:158-163 | The queue growing by exactly the accepted bytes is transitive across calls. |
| CliUart.TruncatedAppends | src/cli/cli_uart.cpp:150-156 | Two truncated appends to an undrained ring equal one truncated append of the concatenation. |
| CliUart.ReceivedConcat | src/cli/cli_uart.cpp:84-124 | Receiving is compositional: two calls with `a` and then `b` have the effect of one call with `a + b`. |
| TxRing.RingView | src/cli/cli_uart.cpp:160 | The logical contents of the ring hold exactly `len` elements, element i being the slot `(head + i) % capacity` where line 160 stores it. |
| TxRing.RingViewSlices | src/cli/cli_uart.cpp:158-163 | The logical queue is one physical slice, or the tail slice followed by a slice from offset 0 when it wraps. |
| TxRing.RingViewAppend | src/cli/cli_uart.cpp:160-162 | A store at `(head + len) % capacity` appends to the logical queue and leaves the older elements in place. |
| TxRing.RingViewAdvance | src/cli/cli_uart.cpp:211-212 | Advancing the head by k modulo the capacity drops exactly the first k elements. |
| TxRing.RingViewPrefix | src/cli/cli_uart.cpp:195-198 | A prefix that does not cross the physical end is the buffer slice the driver receives. |
| TxRing.AcceptedCount | src/cli/cli_uart.cpp:150-156 | Never more than requested and never over capacity. It is less than requested only when the ring ends up full. |
| TxRing.AcceptedConcat | src/cli/cli_uart.cpp:150-156 | Offering two spans in turn accepts the longest prefix of their concatenation that fits. |
| TxRing.ContiguousRun | src/cli/cli_uart.cpp:186-193 | The run never crosses the physical end and is non-empty when data is queued. It is shorter than the queue only when it stops at the end. |
| TxRing.StraddlingDataTakesTwoRuns | src/cli/cli_uart.cpp:186-193 | Data that wraps is drained in exactly two runs. The second run starts at offset 0 and takes the rest. |
| TxRing.FlattenConcat | src/cli/cli_uart.cpp:195-198 | The driver log's concatenation distributes over appending spans. |
| TxRing.AppendKeepsInvariant | src/cli/cli_uart.cpp:158-163 | Storing one byte behind the queue keeps the ring invariant and extends both the queue and the accepted log by it. |
| TxRing.StartSendKeepsInvariant | src/cli/cli_uart.cpp:182-202 | Handing the contiguous run to the driver keeps the invariant with that run in flight. |
| TxRing.RetireKeepsInvariant | src/cli/cli_uart.cpp:209-213 | Retiring the span in flight keeps the invariant with nothing in flight. |
| LineEditing.Step | src/cli/cli_uart.cpp:86-123 | One byte of the switch. A line shorter than its buffer stays shorter, and exactly one line is handed over when a terminator arrives on a non-empty line, none otherwise. |
| LineEditing.Feed | src/cli/cli_uart.cpp:84-124 | The bytes in order, one step each; no more lines are handed over than bytes were read. |
| LineEditing.StripTerminator | src/cli/cli_uart.cpp:131-139 | The result is the line with exactly its trailing terminator removed: two bytes for CR LF, one for any other trailing CR or LF, none otherwise. A line without terminators is returned unchanged. |
| LineEditing.FeedLast | src/cli/cli_uart.cpp:84-124 | Bytes are processed in order: the last byte is one step after the others. |
| LineEditing.FeedStaysInBounds | src/cli/cli_uart.cpp:119-122 | With the length guard, the pending line always stays shorter than its buffer, leaving room for the NUL. |
| LineEditing.FeedKeepsTerminatorsOut | src/cli/cli_uart.cpp:88-122 | No CR or LF ever enters the pending line. Every line handed over is non-empty and holds no terminator. |
| LineEditing.TerminatorDispatchesLine | src/cli/cli_uart.cpp:88-100 | A terminator empties the line and echoes CRNL and the prompt. One line is handed over if and only if the line was non-empty, and it is handed over unchanged. |
| LineEditing.EraseRemovesLastByte | src/cli/cli_uart.cpp:109-117 | On an empty line, nothing happens. Otherwise exactly the last byte goes and the erase string is echoed. |
| LineEditing.OrdinaryByteEchoedAndStored | src/cli/cli_uart.cpp:119-122 | An ordinary byte is appended and echoed when there is room, and otherwise changes nothing. |
| LineEditing.EraseUndoesAppend | src/cli/cli_uart.cpp:109-122 | Typing a byte and erasing it restores the line, echoing the byte and the erase string. |
| LineEditing.StepThen | src/cli/cli_uart.cpp:86-123 | One step commutes with prefixing earlier output. |
| LineEditing.FeedChunking | src/cli/cli_uart.cpp:78-125 | Bytes delivered in two chunks have the same effect as delivered at once: there is no framing. |
| LineEditing.OrdinaryBytesTyped | src/cli/cli_uart.cpp:119-122 | Ordinary bytes typed into a line with room are stored and echoed verbatim, and nothing is handed over. |
| LineEditing.StatusLineDispatched | src/cli/cli_uart.cpp:88-100 | `status` followed by CR hands exactly `status` to the interpreter and echoes it, then CRNL, then the prompt. |
| LineEditing.LengthAfterAsWritten | src/cli/cli_uart.cpp:86-123 | The unguarded line length after one byte grows by at most one, and by one exactly for an ordinary byte. |
| LineEditing.StoreInBoundsAsWritten | src/cli/cli_uart.cpp:92-121 | The unguarded store one byte makes (NUL at line 94, NUL at line 114, the byte at line 121) lands inside the buffer while the line is shorter than it, and outside once the line is longer. |
| LineEditing.StoresInBoundsAsWritten | src/cli/cli_uart.cpp:84-124 | Every unguarded store made while reading the input lands inside the buffer when the line plus the input fit in it. |
| LineEditing.AsWrittenAgreesWhileRoom | src/cli/cli_uart.cpp:119-121 | While the line has room for a byte and its NUL, the unguarded store is in bounds and the unguarded length is the guarded one. |
| LineEditing.Typed | src/cli/cli_uart.cpp:119-121 | Builds m copies of an ordinary byte, the input of the finding below. |
| LineEditing.TypedInBoundsAsWritten | src/cli/cli_uart.cpp:119-121 | Without the guard, every store lands inside the buffer if and only if the typed bytes fit. |
| LineEditing.SourceOverrunsRxBuffer | src/cli/cli_uart.cpp:121 | Without the guard, capacity + 1 ordinary bytes write past the receive buffer. |

## Left out

- `OutputFormat` (lines 170-180) and `otCliLog` are left out. They format text with `vsnprintf`, which is outside this model; their output reaches the ring through `Output`, which is modelled.
- The Ctrl-C branch (lines 102-107) is left out. It exits the process in the POSIX example build only. In other builds 0x03 is an ordinary byte, and the model treats it that way.
- The global instance and the C entry points are left out: `otCliUartInit`, `otPlatUartReceived` and `otPlatUartSendDone` (lines 57-62, 73-76, 204-207). They only forward to the methods modelled here.
- The interpreter is left out. `ProcessLine` is a log of the lines handed to it. Replies it writes through `Output` during `ProcessCommand` are not modelled.
- The driver is left out. `otPlatUartSend` is a log of spans, and its completion is the caller invoking `SendDoneTask`.
- Interrupt context is left out. Receive and completion callbacks are modelled as calls that do not interleave.
- The buffer sizes `kTxBufferSize` and the receive buffer size are parameters of the constructor, because `cli_uart.hpp` is not part of this model.
- The transmit capacity is bounded below 65536 to match the 16-bit counters, and the counters are `nat`.
- `ProcessCommand` returns `kThreadError_None` unconditionally. The return value is omitted.
- `Output` returns `int` in the source and `nat` here. The value is never negative.
- LineEditing.Step, like CliUart.Uart.ReceiveOrdinary, follows the corrected behaviour in its default branch (lines 119-121): a byte for which the line has no room is dropped without echo.
- CliUart.Uart.ReceiveOrdinary follows the corrected behaviour and not the source: a byte for which the line has no room is dropped without echo. The source stores it past the buffer (see Findings).
- CliUart.Uart.ReceiveTask inherits the guard above. Its echo clause also assumes that no send completes during the call, as completions do not interleave in this model. It further assumes that the interpreter writes nothing through `Output` while it handles a line (line 141, between the CRNL and the prompt); replies it writes there would sit between those echoes in the ring.
- CliUart.Uart.ProcessCommand guards the CR strip with `rxLength > 0`. The source reads index `rxLength - 1` even after the LF strip emptied a line holding only LF. That line cannot arise from `ReceiveTask`, which never stores a terminator.

## Findings

| source | as written | input that shows it | evidently intended | confidence | as-written member | corrected member |
|---|---|---|---|---|---|---|
| src/cli/cli_uart.cpp:121 | The default branch stores the byte at `mRxBuffer[mRxLength++]` with no bound. The NUL at line 94 is then written at `mRxLength`. | capacity + 1 ordinary bytes with no CR or LF: the last store, or the NUL that follows, lands past the receive buffer. | Drop, without echo, a byte for which the line has no room, keeping room for the NUL. | high; not executed | LineEditing.SourceOverrunsRxBuffer | LineEditing.FeedStaysInBounds |
