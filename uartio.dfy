/**
 * The UART character I/O adapter: a receive ring filled by a circular DMA
 * transfer and drained one character at a time, and a transmit ring filled
 * by `_write` / `__io_putchar` and drained by transmit-complete interrupts.
 *
 * The hardware is not memory of the model. The DMA "remaining count"
 * register (NDTR) is the parameter `remaining`; the peripheral's transmit
 * pointer after a completed transfer, as an offset into the transmit array,
 * is the parameter `hwOffset`; each `HAL_UART_Transmit_IT(&TxBuff[s], n)`
 * request is returned as `Transfer(s, n)`. Every operation is one atomic
 * step.
 */
module UartIO {
  import opened Ring

  /** The "no data" result of a character read. */
  const EOF: int := -1

  /** The configured capacities of the two rings. */
  const TX_BUFF_SZ: nat := 32
  const RX_BUFF_SZ: nat := 32

  lemma ConfiguredCapacitiesArePowersOfTwo()
    ensures IsPowerOfTwo(TX_BUFF_SZ) && IsPowerOfTwo(RX_BUFF_SZ) && TX_BUFF_SZ <= MAX_TX_CAP
  {}

  /** The driver's static state: both ring arrays and the three cursors. */
  class Uart {
    var rxBuff: array<byte>
    var rxIdx: nat
    var txBuff: array<byte>
    var txInsert: nat
    var txExtract: nat

    ghost predicate Valid()
      reads this
    {
      && rxBuff != txBuff
      && IsPowerOfTwo(rxBuff.Length) && IsPowerOfTwo(txBuff.Length)
      && txBuff.Length <= MAX_TX_CAP
      && rxIdx < rxBuff.Length
      && txInsert < txBuff.Length && txExtract < txBuff.Length
    }

    /** The received bytes not yet read, given the DMA's current remaining count. */
    ghost function RxPending(remaining: nat): seq<byte>
      reads this, rxBuff
      requires Valid()
    {
      var insert := RxInsertPos(rxBuff.Length, remaining);
      Slice(rxBuff[..], rxIdx, Count(insert, rxIdx, rxBuff.Length))
    }

    /** The bytes queued for transmission and not yet reported sent. */
    ghost function Pending(): seq<byte>
      reads this, txBuff
      requires Valid()
    {
      Slice(txBuff[..], txExtract, Count(txInsert, txExtract, txBuff.Length))
    }

    /**
     * `UartIO_Init`: the receive DMA is started on the whole receive array
     * (so `remaining` begins at the capacity) and all cursors are reset.
     */
    constructor Init(rxCap: nat, txCap: nat)
      requires IsPowerOfTwo(rxCap) && IsPowerOfTwo(txCap) && txCap <= MAX_TX_CAP
      ensures Valid() && fresh(rxBuff) && fresh(txBuff)
      ensures rxBuff.Length == rxCap && txBuff.Length == txCap
      ensures rxIdx == 0 && txInsert == 0 && txExtract == 0
      ensures RxPending(rxCap) == [] && Pending() == []
    {
      rxBuff := new byte[rxCap](_ => 0);
      txBuff := new byte[txCap](_ => 0);
      rxIdx := 0;
      txInsert := 0;
      txExtract := 0;
    }

    /** `UartIO_RxEmpty`: 1 when no received byte is waiting, else 0. */
    method RxEmpty(remaining: nat) returns (empty: int)
      requires Valid()
      ensures empty == 0 || empty == 1
      ensures empty == 1 <==> RxPending(remaining) == []
    {
      empty := if rxIdx == RxInsertPos(rxBuff.Length, remaining) then 1 else 0;
    }

    /**
     * `__io_getchar`: EOF on an empty ring, otherwise the oldest received
     * byte, which is then removed from the ring.
     */
    method GetChar(remaining: nat) returns (ch: int)
      requires Valid()
      modifies this`rxIdx
      ensures Valid() && rxBuff[..] == old(rxBuff[..])
      ensures ch == EOF <==> old(RxPending(remaining)) == []
      ensures ch == EOF ==> rxIdx == old(rxIdx)
      ensures ch != EOF ==> ch == rxBuff[old(rxIdx)] as int && ch == old(RxPending(remaining))[0] as int
      ensures ch != EOF ==> rxIdx == Wrap(old(rxIdx) + 1, rxBuff.Length)
      ensures ch != EOF ==> RxPending(remaining) == old(RxPending(remaining))[1..]
    {
      var empty := RxEmpty(remaining);
      if empty == 1 {
        return EOF;
      }
      ghost var cap := rxBuff.Length;
      ghost var insert := RxInsertPos(cap, remaining);
      ghost var n := Count(insert, rxIdx, cap);
      ghost var buf := rxBuff[..];
      ghost var idx0 := rxIdx;
      assert RxPending(remaining) == Slice(buf, idx0, n);
      assert |Slice(buf, idx0, n)| == n != 0;
      assert Wrap(idx0 + 0, cap) == idx0;
      assert Slice(buf, idx0, n)[0] == buf[idx0];
      CountRetreat(insert, idx0, cap, 1);
      SliceDrop(buf, idx0, n, 1);
      ch := rxBuff[rxIdx] as int;
      ModSmall(rxIdx + 1, cap);
      rxIdx := (rxIdx + 1) % rxBuff.Length;
      assert rxBuff[..] == buf;
      assert RxPending(remaining) == Slice(buf, rxIdx, n - 1);
    }

    /**
     * Environment action, not driver code: the receive DMA stores `b` at the
     * position derived from `remaining` and counts down, reloading after the
     * last slot. Nothing detects an overrun: once cap - 1 bytes are waiting,
     * one more byte makes the ring look empty.
     */
    method DmaReceive(b: byte, remaining: nat) returns (next: nat)
      requires Valid() && 1 <= remaining <= rxBuff.Length
      modifies rxBuff
      ensures Valid()
      ensures next == NextRemaining(remaining, rxBuff.Length) && 1 <= next <= rxBuff.Length
      ensures rxBuff[..] == old(rxBuff[..])[RxInsertPos(rxBuff.Length, remaining) := b]
      ensures |old(RxPending(remaining))| < rxBuff.Length - 1 ==> RxPending(next) == old(RxPending(remaining)) + [b]
      ensures |old(RxPending(remaining))| == rxBuff.Length - 1 ==> RxPending(next) == []
    {
      ghost var cap := rxBuff.Length;
      ghost var insert := RxInsertPos(cap, remaining);
      ghost var n := Count(insert, rxIdx, cap);
      RxInsertPosAdvances(cap, remaining);
      SliceAppend(rxBuff[..], rxIdx, n, b);
      rxBuff[RxInsertPos(rxBuff.Length, remaining)] := b;
      next := NextRemaining(remaining, rxBuff.Length);
      if n < cap - 1 {
        CountAdvance(insert, rxIdx, cap, 1);
      } else {
        assert Wrap(insert + 1, cap) == rxIdx;
      }
    }

    /**
     * `_write` in interrupt mode: copies as many bytes of `data[..len]` as fit
     * while keeping the blocking slot free, returns how many it took, and
     * asks for a one-byte transfer at the extract cursor when it took any.
     */
    method Write(data: seq<byte>, len: int) returns (accepted: int, kick: Option<Transfer>)
      requires Valid() && len <= |data|
      modifies this`txInsert, txBuff
      ensures Valid()
      ensures var free := txBuff.Length - 1 - |old(Pending())|;
              accepted == if len <= 0 then 0 else if len <= free then len else free
      ensures 0 <= accepted
      ensures txExtract == old(txExtract)
      ensures txInsert == Wrap(old(txInsert) + accepted, txBuff.Length)
      ensures txBuff[..] == Fill(old(txBuff[..]), old(txInsert), data[..accepted])
      ensures Pending() == old(Pending()) + data[..accepted]
      ensures kick == if accepted != 0 then Some(Transfer(txExtract, 1)) else None
    {
      ghost var cap := txBuff.Length;
      ghost var insert0 := txInsert;
      ghost var buf0 := txBuff[..];
      ghost var count0 := Count(txInsert, txExtract, cap);
      ghost var room := cap - 1 - count0;
      var dataIdx := 0;
      var blockAddr := BlockAddr(txExtract, txBuff.Length);
      BlockAddrOnlyWhenFull(insert0, txExtract, cap, 0);
      while dataIdx < len && txInsert != blockAddr
        invariant Valid() && txBuff.Length == cap && txExtract == old(txExtract)
        invariant 0 <= dataIdx <= room && (dataIdx <= len || dataIdx == 0)
        invariant txInsert == Wrap(insert0 + dataIdx, cap)
        invariant txInsert == blockAddr <==> dataIdx == room
        invariant txBuff[..] == Fill(buf0, insert0, data[..dataIdx])
        decreases len - dataIdx
      {
        assert data[..dataIdx + 1][..dataIdx] == data[..dataIdx];
        Store(data[dataIdx]);
        dataIdx := dataIdx + 1;
        BlockAddrOnlyWhenFull(insert0, txExtract, cap, dataIdx);
      }
      ghost var written := data[..dataIdx];
      assert |written| == dataIdx;
      ProducerAppends(buf0, insert0, txExtract, written, txBuff[..], txInsert, cap);
      accepted := dataIdx;
      kick := if dataIdx != 0 then Some(Transfer(txExtract, 1)) else None;
    }

    /**
     * Stores `b` at the insert cursor and moves the cursor one slot on, with
     * no full check: the step shared by the copy loop of `_write` and by
     * `__io_putchar`.
     */
    method Store(b: byte)
      requires Valid()
      modifies this`txInsert, txBuff
      ensures Valid() && txExtract == old(txExtract)
      ensures txBuff[..] == old(txBuff[..])[old(txInsert) := b]
      ensures txInsert == Wrap(old(txInsert) + 1, txBuff.Length)
    {
      txBuff[txInsert] := b;
      ModSmall(txInsert + 1, txBuff.Length);
      txInsert := (txInsert + 1) % txBuff.Length;
    }

    /**
     * `__io_putchar` in interrupt mode: stores `ch` at the insert cursor with
     * no full check and always asks for a one-byte transfer. On a full ring
     * the insert cursor runs onto the extract cursor and the ring looks
     * empty.
     */
    method PutChar(ch: byte) returns (kick: Transfer)
      requires Valid()
      modifies this`txInsert, txBuff
      ensures Valid()
      ensures txBuff[..] == old(txBuff[..])[old(txInsert) := ch]
      ensures txInsert == Wrap(old(txInsert) + 1, txBuff.Length) && txExtract == old(txExtract)
      ensures |old(Pending())| < txBuff.Length - 1 ==> Pending() == old(Pending()) + [ch]
      ensures |old(Pending())| == txBuff.Length - 1 ==> Pending() == []
      ensures kick == Transfer(txExtract, 1)
    {
      ghost var cap := txBuff.Length;
      ghost var n := Count(txInsert, txExtract, cap);
      ghost var buf := txBuff[..];
      SliceAppend(buf, txExtract, n, ch);
      if n < cap - 1 {
        CountAdvance(txInsert, txExtract, cap, 1);
      } else {
        assert Wrap(txInsert + 1, cap) == txExtract;
      }
      Store(ch);
      kick := Transfer(txExtract, 1);
    }

    /**
     * `HAL_UART_TxCpltCallback`: takes the new extract cursor from the
     * peripheral's transmit pointer and arms the next contiguous run of
     * pending bytes, if any.
     */
    method TxCpltCallback(hwOffset: int) returns (next: Option<Transfer>)
      requires Valid()
      modifies this`txExtract
      ensures Valid()
      ensures txExtract == hwOffset % txBuff.Length && txInsert == old(txInsert)
      ensures next == NextTransfer(txInsert, txExtract, txBuff.Length)
      ensures next.None? <==> Pending() == []
      ensures next.Some? ==> txBuff[next.value.start..next.value.start + next.value.len] == Pending()[..next.value.len]
      ensures var sent := Count(txExtract, old(txExtract), txBuff.Length);
              sent <= |old(Pending())| ==> Pending() == old(Pending())[sent..]
    {
      ghost var extract0 := txExtract;
      ghost var buf := txBuff[..];
      assert old(Pending()) == Slice(buf, extract0, Count(txInsert, extract0, txBuff.Length));
      txExtract := hwOffset % txBuff.Length;
      assert txBuff[..] == buf;
      assert Pending() == Slice(buf, txExtract, Count(txInsert, txExtract, txBuff.Length));
      CompletionStep(buf, txInsert, extract0, txExtract);
      if txExtract == txInsert {
        return None;
      }
      var size: nat;
      if txInsert > txExtract {
        size := (txInsert - txExtract) % UINT16_RANGE;
      } else {
        size := (txBuff.Length - txExtract) % UINT16_RANGE;
      }
      next := Some(Transfer(txExtract, size));
    }
  }

  /**
   * A byte stored by the receive DMA into a freshly started ring is read
   * back by the next `__io_getchar`, and the read after it finds the ring
   * empty.
   */
  method ReceiveThenRead(b: byte) returns (first: int, second: int)
    ensures first == b as int && second == EOF
  {
    ConfiguredCapacitiesArePowersOfTwo();
    var u := new Uart.Init(RX_BUFF_SZ, TX_BUFF_SZ);
    var remaining := u.DmaReceive(b, RX_BUFF_SZ);
    first := u.GetChar(remaining);
    second := u.GetChar(remaining);
  }

  /**
   * From an empty transmit ring of the configured capacity, offering 31
   * bytes accepts all of them and offering 32 accepts only 31: the blocking
   * slot stays free. Either write starts a one-byte transfer at slot 0.
   */
  method WriteIntoEmptyRing(data: seq<byte>) returns (whole: int, capped: int, kick: Option<Transfer>)
    requires |data| == TX_BUFF_SZ
    ensures whole == TX_BUFF_SZ - 1 && capped == TX_BUFF_SZ - 1
    ensures kick == Some(Transfer(0, 1))
  {
    ConfiguredCapacitiesArePowersOfTwo();
    var u := new Uart.Init(RX_BUFF_SZ, TX_BUFF_SZ);
    whole, kick := u.Write(data, TX_BUFF_SZ - 1);
    var v := new Uart.Init(RX_BUFF_SZ, TX_BUFF_SZ);
    capped, kick := v.Write(data, TX_BUFF_SZ);
  }
}
