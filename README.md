# UartIO ring buffers in Dafny

This project models the character I/O adapter `UartIO` for an STM32 UART,
in its interrupt transmit mode. The adapter redirects the C library's
`stdin`/`stdout` to the serial port through two ring buffers of 32 bytes
each (the capacities must be powers of two):

- **Receive ring.** A circular DMA transfer fills `RxBuff`. Software drains
  it one byte at a time with `__io_getchar`, moving the extract index
  `RxIdx`. The producer position is never stored. `DMA_RX_INSERT_PTR`
  derives it from the DMA's "remaining count" register (NDTR).
- **Transmit ring.** `_write` and `__io_putchar` store bytes at
  `TxInsertIdx`, and each store starts a one-byte interrupt transfer at
  `TxExtractIdx`. When a transfer completes, `HAL_UART_TxCpltCallback` reads
  the new extract index from the peripheral's transmit pointer. It then arms
  the next contiguous run of pending bytes. That run stops at the insert
  index or at the physical end of the array, whichever comes first.

Layout:

- `ring.dfy` (module `Ring`) holds the cursor arithmetic and its laws:
  - `Count`, the number of pending bytes from an extract to an insert cursor.
  - `BlockAddr`, the slot `_write` keeps free.
  - `RxInsertPos`, the DMA producer position.
  - `Slice` and `Fill`, the bytes a run holds and the array a producer leaves behind.
  - `NextTransfer`, the run a completion arms.
  - `DrainRuns` and `Emitted`, the transfers that follow each other and the bytes they send.
- `uartio.dfy` (module `UartIO`) holds the class `Uart`:
  - Its fields are the driver's static state: `RxBuff`, `RxIdx`, `TxBuff`, `TxInsertIdx` and `TxExtractIdx`.
  - Its methods are the driver's functions.
  - Two ghost functions give each ring's abstract contents, as the sequence of bytes waiting in it:
    - `RxPending(remaining)` for the receive ring.
    - `Pending()` for the transmit ring.

How the hardware enters the model:

- It is not memory. The DMA remaining count is the parameter `remaining`.
- After a transfer completes, the peripheral's transmit pointer, taken as an offset into `TxBuff`, is the parameter `hwOffset`.
- Each `HAL_UART_Transmit_IT(&TxBuff[s], n)` request is returned to the caller as `Transfer(s, n)`.
- Every function runs as one atomic step.
- The code computes `(x) & (SZ - 1)` as `x % cap`, which is Euclidean in Dafny.
  - For a power-of-two capacity this equals masking the C `uint32_t` value, including a negative pointer difference.
  - The specification functions use `Wrap` (subtract `cap` once). `ModSmall` shows it agrees with `%` on the sums that occur.

## Model

| member | source | states |
|---|---|---|
| UartIO.ConfiguredCapacitiesArePowersOfTwo | UartIO/UartIO.h:22-23 | both configured capacities (32) are powers of two and fit the completion handler's 16-bit run length |
| Ring.RxInsertPos | UartIO/UartIO.c:26 | the derived receive position lies in [0, cap); a freshly loaded block (remaining == cap) gives position 0; position plus remaining count is a whole number of blocks |
| Ring.RxInsertPosAdvances | UartIO/UartIO.c:26 | each DMA store (remaining counts down, reloading cap after 1) moves the derived position one slot on, modulo cap |
| Ring.RxInsertPosUnsigned | UartIO/UartIO.c:26 | for capacity 32, the C expression evaluated in unsigned 32-bit arithmetic and masked equals the model's position for every register value |
| Ring.ModSmall | UartIO/UartIO.c:53 | the driver's reduction modulo the capacity agrees with the specification's single wrap-around on cursor sums below twice the capacity |
| Ring.Count | UartIO/UartIO.c:41-44 | the pending count is below the capacity, is the unique distance from extract to insert, and is zero exactly when the two cursors are equal |
| Ring.CountAdvance | UartIO/UartIO.c:110-111 | moving the insert cursor j slots on adds j pending bytes while the ring does not overflow |
| Ring.CountRetreat | UartIO/UartIO.c:52-53 | moving the extract cursor j slots on (at most the pending count) removes j pending bytes |
| Ring.BlockAddr | UartIO/UartIO.c:106 | the blocking slot `(extract - 1) & (cap - 1)` is in range and is where cap - 1 bytes are pending |
| Ring.BlockAddrOnlyWhenFull | UartIO/UartIO.c:106-108 | a producer that has moved d slots on from insert stands on the blocking slot exactly when count + d == cap - 1 (both directions) |
| Ring.BlockAddrUnsigned | UartIO/UartIO.c:106 | for capacity 32, `extract - 1` wrapping below zero in unsigned 32-bit arithmetic and then masked gives `BlockAddr` |
| Ring.FillWrites | UartIO/UartIO.c:108-113 | after a producer stores d from `start`, reading as many bytes back as d holds from `start` (wrapping) gives d in order |
| Ring.FillKeeps | UartIO/UartIO.c:108-113 | a producer storing d from `start` changes no slot that lies at least the length of d past `start` |
| Ring.FillSparesPending | UartIO/UartIO.c:108-113 | a producer that keeps the ring short of full never writes a slot of the pending region [extract, insert) |
| Ring.FillPending | UartIO/UartIO.c:108-113 | storing d at the insert cursor of a ring short of full gives pending count grown by the length of d and pending bytes old pending ++ d |
| Ring.ProducerAppends | UartIO/UartIO.c:108-113 | the same, read off a filled array and an insert cursor moved on by the length of d |
| Ring.NextTransfer | UartIO/UartIO.c:133-142 | none exactly when extract == insert; otherwise a run starting at extract with 0 < len <= pending count, start + len <= cap, and len == pending count or the run ends at the physical end of the array |
| Ring.CompletionStep | UartIO/UartIO.c:131-143 | moving extract no further than insert leaves the old pending bytes minus the sent prefix; the armed run is none exactly when nothing is pending, and otherwise holds the oldest pending bytes |
| Ring.DrainRuns | UartIO/UartIO.c:129-144 | successive completions arm runs of positive length inside the array: none when empty, one when the pending bytes are contiguous, and two, the second starting at 0, when they straddle the end |
| Ring.DrainEmitsPending | UartIO/UartIO.c:129-144 | the runs armed by successive completions send exactly the pending bytes, in order |
| Ring.KickRuns | UartIO/UartIO.c:115-116 | a write's one-byte transfer at extract, followed by at most two completion runs, all inside the array |
| Ring.KickThenDrainEmitsPending | UartIO/UartIO.c:103-144 | the write's one-byte transfer followed by the completions it triggers sends exactly the pending bytes, in order |
| Ring.RunThenDrainEmitsPending | UartIO/UartIO.c:129-144 | any contiguous prefix run of the pending bytes, followed by the completions, sends exactly the pending bytes, in order |
| Ring.StraddlingRunDrainsInTwo | UartIO/UartIO.c:138-142 | six bytes pending from slot 29 of a 32-slot ring are sent as (29, 3) then (0, 3) |
| UartIO.Uart.Init | UartIO/UartIO.c:28-39 | fresh arrays of the given power-of-two capacities, all three cursors 0, both rings empty |
| UartIO.Uart.RxEmpty | UartIO/UartIO.c:41-44 | returns 1 exactly when no received byte is waiting (RxIdx equals the derived position), else 0 |
| UartIO.Uart.GetChar | UartIO/UartIO.c:46-55 | EOF exactly when the ring is empty, leaving RxIdx unchanged; otherwise returns RxBuff[old RxIdx], the oldest waiting byte, advances RxIdx by one modulo cap and removes that byte from the waiting sequence; RxBuff is never changed |
| UartIO.Uart.DmaReceive | UartIO/UartIO.c:20-26 | the DMA stores a byte at the derived position and counts down; the byte is appended to the waiting sequence unless cap - 1 were waiting, in which case the ring looks empty (silent overrun) |
| UartIO.Uart.Write | UartIO/UartIO.c:103-118 | accepts min(max(len, 0), cap - 1 - pending); leaves extract unchanged; stores data[..accepted] from the old insert cursor (array == Fill) and moves insert accepted slots on; pending becomes old pending ++ data[..accepted]; arms (extract, 1) exactly when accepted != 0 |
| UartIO.Uart.Store | UartIO/UartIO.c:110-111 | stores one byte at the insert cursor and advances it by one modulo cap, changing nothing else |
| UartIO.Uart.PutChar | UartIO/UartIO.c:121-127 | stores ch at insert, advances insert, leaves extract unchanged, always arms (extract, 1); appends ch when not full, and on a full ring (cap - 1 pending) the ring then looks empty |
| UartIO.Uart.TxCpltCallback | UartIO/UartIO.c:129-144 | extract becomes hwOffset mod cap (an offset equal to cap wraps to 0); insert unchanged; the armed run is NextTransfer: none exactly when nothing is pending, otherwise the array bytes it covers are the oldest pending ones; bytes passed over are removed from the front of the pending sequence |
| UartIO.ReceiveThenRead | UartIO/UartIO.c:41-55 | a byte the DMA stores into a freshly started ring is returned by the next read, and the read after it returns EOF |
| UartIO.WriteIntoEmptyRing | UartIO/UartIO.c:103-118 | from an empty 32-byte ring, offering 31 bytes accepts 31 and offering 32 also accepts only 31; the write arms (0, 1) |

## Left out

- The HAL calls (`HAL_UART_Receive_DMA`, `HAL_UART_Transmit_IT`) are foreign code. `HAL_UART_Transmit_IT` appears only as the returned `Transfer` request. HAL's "busy, request ignored" behaviour is not modelled, and neither is the `UART_HandleTypeDef` pointer `huartio`.
- `HAL_UART_Receive_DMA` in `UartIO_Init` is not recorded. Its effect is the starting value `remaining == cap` that callers pass.
- Stdio set-up in `UartIO_Init` (`setbuf`, `setvbuf`, UartIO/UartIO.c:30-32): library I/O configuration, with no effect on the rings.
- Blocking transmit mode (UartIO/UartIO.c:68-92). It is compiled out by UartIO/UartIO.h:18-19.
- Preemption between the interrupt handler and the foreground code, and the atomicity of cursor loads and stores. Every operation is one atomic step.
- The DMA engine itself is hardware. `Uart.DmaReceive` is an environment action standing in for one DMA store, not driver code, and it detects no overrun (the source has none).
- The unused `file` parameter of `_write`, and reading `*ptr` as a `seq<byte>` of at least `len` bytes (the caller's buffer).
- `char` signedness in `__io_getchar`. Bytes are taken as unsigned, as with ARM GCC, so a byte never equals EOF.
- `UartIO_getch` is declared in UartIO/UartIO.h:26 but never defined.
- Capacities above 2^16 are excluded (`MAX_TX_CAP`). The callback's `uint16_t Size` would truncate a run there. `NextTransfer` and `TxCpltCallback` still write out the `% 0x1_0000` truncation.
- Ring.RxInsertPosUnsigned: shows the unsigned 32-bit evaluation only for the configured capacity 32, not for every power of two.
- Ring.BlockAddrUnsigned: likewise, only for the configured capacity 32.
