/**
 * Cursor arithmetic shared by the receive and the transmit ring of the UART
 * driver. A ring of capacity `cap` is an array indexed by cursors in
 * [0, cap); the driver advances every cursor with `& (cap - 1)`, which for a
 * power-of-two capacity is reduction modulo `cap`. The driver's code is
 * written with `% cap`; the specification functions here use `Wrap`, which
 * agrees with it on the sums that occur (`ModSmall`).
 */
module Ring {

  /** One octet of a ring array (`uint8_t`). */
  newtype byte = x: int | 0 <= x < 0x100

  datatype Option<T> = None | Some(value: T)

  /**
   * A request to the serial peripheral to transmit `len` bytes of the
   * transmit array starting at offset `start`: the model's record of one
   * `HAL_UART_Transmit_IT` call.
   */
  datatype Transfer = Transfer(start: nat, len: nat)

  /** Values of a `uint32_t` lie in [0, UINT32_RANGE). */
  const UINT32_RANGE: nat := 0x1_0000_0000

  /** Values of a `uint16_t` lie in [0, UINT16_RANGE). */
  const UINT16_RANGE: nat := 0x1_0000

  /**
   * The completion handler stores its run length in a `uint16_t`; runs are
   * shorter than the capacity, so up to this capacity nothing is truncated.
   */
  const MAX_TX_CAP: nat := UINT16_RANGE

  predicate IsPowerOfTwo(n: nat)
  {
    n == 1 || (n >= 2 && n % 2 == 0 && IsPowerOfTwo(n / 2))
  }

  /**
   * A cursor sum below twice the capacity brought back into [0, cap): the
   * specification functions below wrap cursors this way, without `%`.
   */
  function Wrap(x: nat, cap: nat): nat
    requires x < 2 * cap
  {
    if x < cap then x else x - cap
  }

  /** On such sums, the driver's reduction modulo the capacity is `Wrap`. */
  lemma ModSmall(x: int, cap: nat)
    requires 0 < cap && 0 <= x < 2 * cap
    ensures x % cap == Wrap(x, cap)
  {}

  /**
   * Number of bytes pending from `extract` up to `insert`, i.e. the unsigned
   * difference `insert - extract` reduced modulo the capacity. It is the
   * unique n below the capacity with which `extract` reaches `insert`.
   */
  function Count(insert: nat, extract: nat, cap: nat): (n: nat)
    requires insert < cap && extract < cap
    ensures n < cap
    ensures Wrap(extract + n, cap) == insert
    ensures n == 0 <==> insert == extract
  {
    if extract <= insert then insert - extract else insert + cap - extract
  }

  lemma {:induction false} CountUnique(insert: nat, extract: nat, cap: nat, n: nat)
    requires insert < cap && extract < cap && n < cap
    requires Wrap(extract + n, cap) == insert
    ensures n == Count(insert, extract, cap)
  {}

  /** Moving the insert cursor forward by j adds j pending bytes, as long as the ring does not overflow. */
  lemma {:induction false} CountAdvance(insert: nat, extract: nat, cap: nat, j: nat)
    requires insert < cap && extract < cap
    requires Count(insert, extract, cap) + j < cap
    ensures Count(Wrap(insert + j, cap), extract, cap) == Count(insert, extract, cap) + j
  {
    var n := Count(insert, extract, cap);
    CountUnique(Wrap(insert + j, cap), extract, cap, n + j);
  }

  /** Moving the extract cursor forward by j (at most the pending count) removes j pending bytes. */
  lemma {:induction false} CountRetreat(insert: nat, extract: nat, cap: nat, j: nat)
    requires insert < cap && extract < cap
    requires j <= Count(insert, extract, cap)
    ensures Count(insert, Wrap(extract + j, cap), cap) == Count(insert, extract, cap) - j
  {
    var n := Count(insert, extract, cap);
    CountUnique(insert, Wrap(extract + j, cap), cap, n - j);
  }

  /**
   * The blocking boundary of the transmit ring, `(extract - 1) & (cap - 1)`:
   * the one slot left empty so that a full ring differs from an empty one.
   * An insert cursor stands on it exactly when cap - 1 bytes are pending.
   */
  function BlockAddr(extract: nat, cap: nat): (b: nat)
    requires extract < cap
    ensures b < cap && Count(b, extract, cap) == cap - 1
  {
    Wrap(extract + cap - 1, cap)
  }

  /**
   * No other slot is the blocking boundary: a producer that has moved the
   * insert cursor d slots on stands on it exactly when the ring is full.
   */
  lemma {:induction false} BlockAddrOnlyWhenFull(insert: nat, extract: nat, cap: nat, d: nat)
    requires insert < cap && extract < cap && Count(insert, extract, cap) + d < cap
    ensures Wrap(insert + d, cap) == BlockAddr(extract, cap) <==> Count(insert, extract, cap) + d == cap - 1
  {
    CountAdvance(insert, extract, cap, d);
    if Count(insert, extract, cap) + d == cap - 1 {
      CountUnique(BlockAddr(extract, cap), extract, cap, cap - 1);
    }
  }

  /**
   * The receive producer position derived from the DMA "remaining" count,
   * `(cap - remaining) & (cap - 1)`: the position plus the remaining count
   * is a whole number of blocks, and a freshly loaded block starts at 0.
   */
  function RxInsertPos(cap: nat, remaining: nat): (p: nat)
    requires 0 < cap
    ensures p < cap
    ensures remaining == cap ==> p == 0
    ensures remaining <= cap ==> p + remaining == cap || p + remaining == 0
  {
    var p := (cap - remaining) % cap;
    if remaining <= cap then ModSmall(cap - remaining, cap); p else p
  }

  /**
   * The DMA engine counts `remaining` down from `cap` to 1 and then reloads
   * `cap`; each store it makes moves the derived position one slot on.
   */
  function NextRemaining(remaining: nat, cap: nat): nat
  {
    if remaining <= 1 then cap else remaining - 1
  }

  lemma RxInsertPosAdvances(cap: nat, remaining: nat)
    requires 0 < cap && 1 <= remaining <= cap
    ensures RxInsertPos(cap, NextRemaining(remaining, cap)) == Wrap(RxInsertPos(cap, remaining) + 1, cap)
  {
    ModSmall(cap - remaining, cap);
    ModSmall(cap - NextRemaining(remaining, cap), cap);
  }

  /**
   * With the configured capacity of 32, the C expression computed in
   * unsigned 32-bit arithmetic and then masked gives the model's position
   * for every register value.
   */
  lemma RxInsertPosUnsigned(ndtr: nat)
    requires ndtr < UINT32_RANGE
    ensures ((32 - ndtr) % UINT32_RANGE) % 32 == RxInsertPos(32, ndtr)
  {}

  /** Likewise for the blocking boundary, where `extract - 1` wraps below zero. */
  lemma BlockAddrUnsigned(extract: nat)
    requires extract < 32
    ensures ((extract - 1) % UINT32_RANGE) % 32 == BlockAddr(extract, 32)
  {}

  /** The `n` bytes of ring `buf` read from offset `start` on, wrapping past the end of the array. */
  function Slice(buf: seq<byte>, start: nat, n: nat): seq<byte>
    requires start < |buf| && n <= |buf|
  {
    seq(n, k requires 0 <= k < n => buf[Wrap(start + k, |buf|)])
  }

  /** Storing b at the slot after a run extends the run by b and nothing else. */
  lemma {:induction false} SliceAppend(buf: seq<byte>, start: nat, n: nat, b: byte)
    requires start < |buf| && n < |buf|
    ensures Slice(buf[Wrap(start + n, |buf|) := b], start, n + 1) == Slice(buf, start, n) + [b]
  {
    var cap := |buf|;
    var buf' := buf[Wrap(start + n, cap) := b];
    forall k | 0 <= k < n
      ensures Slice(buf', start, n + 1)[k] == Slice(buf, start, n)[k]
    {
      assert Wrap(start + k, cap) != Wrap(start + n, cap);
    }
  }

  /**
   * `buf` with the bytes of `d` stored one after another from slot `start`
   * on, wrapping past the end of the array: what a producer leaves behind.
   */
  function Fill(buf: seq<byte>, start: nat, d: seq<byte>): (r: seq<byte>)
    requires start < |buf| && |d| <= |buf|
    ensures |r| == |buf|
    decreases |d|
  {
    if d == [] then buf
    else Fill(buf, start, d[..|d| - 1])[Wrap(start + |d| - 1, |buf|) := d[|d| - 1]]
  }

  /** The run of |d| bytes read back from `start` after filling is `d`. */
  lemma {:induction false} FillWrites(buf: seq<byte>, start: nat, d: seq<byte>)
    requires start < |buf| && |d| <= |buf|
    ensures Slice(Fill(buf, start, d), start, |d|) == d
    decreases |d|
  {
    if d != [] {
      var d' := d[..|d| - 1];
      FillWrites(buf, start, d');
      SliceAppend(Fill(buf, start, d'), start, |d'|, d[|d| - 1]);
      assert d == d' + [d[|d| - 1]];
    }
  }

  /** Filling changes no slot outside the run it writes. */
  lemma {:induction false} FillKeeps(buf: seq<byte>, start: nat, d: seq<byte>, i: nat)
    requires start < |buf| && |d| <= |buf| && i < |buf|
    requires Count(i, start, |buf|) >= |d|
    ensures Fill(buf, start, d)[i] == buf[i]
    decreases |d|
  {
    if d != [] {
      assert Wrap(start + |d| - 1, |buf|) != i by {
        if Wrap(start + |d| - 1, |buf|) == i {
          CountUnique(i, start, |buf|, |d| - 1);
        }
      }
      FillKeeps(buf, start, d[..|d| - 1], i);
    }
  }

  /**
   * Filling at the insert cursor of a ring that stays short of full never
   * touches a pending slot, i.e. one between the extract and the insert cursor.
   */
  lemma {:induction false} FillSparesPending(buf: seq<byte>, insert: nat, extract: nat, d: seq<byte>, i: nat)
    requires insert < |buf| && extract < |buf| && i < |buf|
    requires Count(insert, extract, |buf|) + |d| < |buf|
    requires Count(i, extract, |buf|) < Count(insert, extract, |buf|)
    ensures Fill(buf, insert, d)[i] == buf[i]
  {
    var cap := |buf|;
    var n := Count(insert, extract, cap);
    var k := Count(i, extract, cap);
    assert Wrap(insert + (cap - n + k), cap) == i;
    CountUnique(i, insert, cap, cap - n + k);
    FillKeeps(buf, insert, d, i);
  }

  /**
   * Filling at the insert cursor of a ring that stays short of full
   * appends the filled bytes to the pending ones and moves the insert
   * cursor |d| slots on.
   */
  lemma {:induction false} FillPending(buf: seq<byte>, insert: nat, extract: nat, d: seq<byte>)
    requires insert < |buf| && extract < |buf|
    requires Count(insert, extract, |buf|) + |d| < |buf|
    ensures Count(Wrap(insert + |d|, |buf|), extract, |buf|) == Count(insert, extract, |buf|) + |d|
    ensures Slice(Fill(buf, insert, d), extract, Count(insert, extract, |buf|) + |d|)
         == Slice(buf, extract, Count(insert, extract, |buf|)) + d
    decreases |d|
  {
    var cap := |buf|;
    var n := Count(insert, extract, cap);
    CountAdvance(insert, extract, cap, |d|);
    if d != [] {
      var d' := d[..|d| - 1];
      var b := d[|d| - 1];
      FillPending(buf, insert, extract, d');
      assert Wrap(extract + (n + |d'|), cap) == Wrap(insert + |d'|, cap);
      SliceAppend(Fill(buf, insert, d'), extract, n + |d'|, b);
      assert d == d' + [b];
    }
  }

  /**
   * The same, read off the state a producer leaves behind: a ring filled
   * with `d` at `insert0` and with its insert cursor |d| slots on holds the
   * old pending bytes followed by `d`.
   */
  lemma ProducerAppends(buf0: seq<byte>, insert0: nat, extract: nat, d: seq<byte>, buf: seq<byte>, insert: nat, cap: nat)
    requires |buf0| == cap && insert0 < cap && extract < cap
    requires Count(insert0, extract, cap) + |d| < cap
    requires buf == Fill(buf0, insert0, d) && insert == Wrap(insert0 + |d|, cap)
    ensures insert < cap && |buf| == cap
    ensures Slice(buf, extract, Count(insert, extract, cap)) == Slice(buf0, extract, Count(insert0, extract, cap)) + d
  {
    FillPending(buf0, insert0, extract, d);
  }

  /** Dropping the first j bytes of a run is the run that starts j slots later. */
  lemma {:induction false} SliceDrop(buf: seq<byte>, start: nat, n: nat, j: nat)
    requires start < |buf| && j <= n <= |buf|
    ensures Slice(buf, Wrap(start + j, |buf|), n - j) == Slice(buf, start, n)[j..]
  {
    var cap := |buf|;
    forall k | j <= k < n
      ensures Slice(buf, Wrap(start + j, cap), n - j)[k - j] == Slice(buf, start, n)[k]
    {
      assert Wrap(Wrap(start + j, cap) + (k - j), cap) == Wrap(start + k, cap);
    }
  }

  /** A run splits into its first j bytes and the run j slots later. */
  lemma {:induction false} SliceSplit(buf: seq<byte>, start: nat, n: nat, j: nat)
    requires start < |buf| && j <= n <= |buf|
    ensures Slice(buf, start, n) == Slice(buf, start, j) + Slice(buf, Wrap(start + j, |buf|), n - j)
  {
    var s := Slice(buf, start, n);
    SliceDrop(buf, start, n, j);
    assert s[..j] == Slice(buf, start, j);
    assert s == s[..j] + s[j..];
  }

  /** A run that does not reach the end of the array is a plain subrange. */
  lemma {:induction false} SliceContiguous(buf: seq<byte>, start: nat, n: nat)
    requires start < |buf| && start + n <= |buf|
    ensures Slice(buf, start, n) == buf[start..start + n]
  {
    forall k | 0 <= k < n
      ensures Slice(buf, start, n)[k] == buf[start + k]
    {
      assert Wrap(start + k, |buf|) == start + k;
    }
  }

  /**
   * The transfer the completion handler arms for the bytes pending from
   * `extract` to `insert`: none when nothing is pending, otherwise one
   * contiguous run from `extract`, ending at `insert` or at the physical end
   * of the array, whichever comes first. The length goes through the
   * handler's `uint16_t`.
   */
  function NextTransfer(insert: nat, extract: nat, cap: nat): (t: Option<Transfer>)
    requires insert < cap && extract < cap && cap <= MAX_TX_CAP
    ensures t.None? <==> insert == extract
    ensures t.Some? ==> t.value.start == extract
    ensures t.Some? ==> 0 < t.value.len <= Count(insert, extract, cap)
    ensures t.Some? ==> t.value.start + t.value.len <= cap
    ensures t.Some? ==> t.value.len == Count(insert, extract, cap) || t.value.start + t.value.len == cap
  {
    if extract == insert then None
    else
      var size := (if insert > extract then insert - extract else cap - extract) % UINT16_RANGE;
      Some(Transfer(extract, size))
  }

  /**
   * A completion that moves the extract cursor from `extract0` to `extract`
   * leaves pending the bytes not yet passed, when it moved no further than
   * the insert cursor; the run it then arms is empty exactly when nothing is
   * pending, and otherwise holds the oldest pending bytes.
   */
  lemma {:induction false} CompletionStep(buf: seq<byte>, insert: nat, extract0: nat, extract: nat)
    requires insert < |buf| && extract0 < |buf| && extract < |buf| && |buf| <= MAX_TX_CAP
    ensures var cap := |buf|;
            var before := Slice(buf, extract0, Count(insert, extract0, cap));
            var after := Slice(buf, extract, Count(insert, extract, cap));
            var sent := Count(extract, extract0, cap);
            var t := NextTransfer(insert, extract, cap);
            && (sent <= |before| ==> after == before[sent..])
            && (t.None? <==> after == [])
            && (t.Some? ==> t.value.len <= |after| && buf[t.value.start..t.value.start + t.value.len] == after[..t.value.len])
  {
    var cap := |buf|;
    var n0 := Count(insert, extract0, cap);
    var n := Count(insert, extract, cap);
    var sent := Count(extract, extract0, cap);
    if sent <= n0 {
      CountRetreat(insert, extract0, cap, sent);
      SliceDrop(buf, extract0, n0, sent);
    }
    var t := NextTransfer(insert, extract, cap);
    if t.Some? {
      SliceContiguous(buf, extract, t.value.len);
      SliceSplit(buf, extract, n, t.value.len);
    }
  }

  /**
   * The transfers armed one after another from the state (`insert`,
   * `extract`) when each completion reports that the whole previous run was
   * sent: the first run from `extract`, and a second one from offset 0 when
   * the pending bytes straddle the end of the array.
   */
  function DrainRuns(insert: nat, extract: nat, cap: nat): (runs: seq<Transfer>)
    requires insert < cap && extract < cap && cap <= MAX_TX_CAP
    ensures forall i :: 0 <= i < |runs| ==> 0 < runs[i].len && runs[i].start + runs[i].len <= cap
    ensures |runs| == if insert == extract then 0 else if extract + Count(insert, extract, cap) <= cap then 1 else 2
    ensures |runs| == 2 ==> runs[1].start == 0
    decreases Count(insert, extract, cap)
  {
    match NextTransfer(insert, extract, cap)
    case None => []
    case Some(t) =>
      CountRetreat(insert, extract, cap, t.len);
      [t] + DrainRuns(insert, Wrap(t.start + t.len, cap), cap)
  }

  /** The bytes the peripheral sends for a list of transfers over `buf`. */
  function Emitted(buf: seq<byte>, runs: seq<Transfer>): seq<byte>
    requires forall i :: 0 <= i < |runs| ==> runs[i].start + runs[i].len <= |buf|
  {
    if runs == [] then []
    else buf[runs[0].start..runs[0].start + runs[0].len] + Emitted(buf, runs[1..])
  }

  lemma EmittedCons(buf: seq<byte>, t: Transfer, rest: seq<Transfer>)
    requires t.start + t.len <= |buf|
    requires forall i :: 0 <= i < |rest| ==> rest[i].start + rest[i].len <= |buf|
    ensures Emitted(buf, [t] + rest) == buf[t.start..t.start + t.len] + Emitted(buf, rest)
  {
    var runs := [t] + rest;
    assert runs[0] == t && runs[1..] == rest;
  }

  /** Draining to completion sends exactly the pending bytes, in order (FIFO). */
  lemma {:induction false} DrainEmitsPending(buf: seq<byte>, insert: nat, extract: nat)
    requires insert < |buf| && extract < |buf| && |buf| <= MAX_TX_CAP
    ensures Emitted(buf, DrainRuns(insert, extract, |buf|)) == Slice(buf, extract, Count(insert, extract, |buf|))
    decreases Count(insert, extract, |buf|)
  {
    var cap := |buf|;
    var n := Count(insert, extract, cap);
    match NextTransfer(insert, extract, cap)
    case None =>
    case Some(t) =>
      var next := Wrap(t.start + t.len, cap);
      var rest := DrainRuns(insert, next, cap);
      assert DrainRuns(insert, extract, cap) == [t] + rest;
      EmittedCons(buf, t, rest);
      CountRetreat(insert, extract, cap, t.len);
      DrainEmitsPending(buf, insert, next);
      SliceContiguous(buf, extract, t.len);
      SliceSplit(buf, extract, n, t.len);
  }

  /**
   * The transfers that follow a write into an idle ring: the write's own
   * one-byte transfer at `extract`, then the runs its completions arm.
   */
  function KickRuns(insert: nat, extract: nat, cap: nat): (runs: seq<Transfer>)
    requires insert < cap && extract < cap && cap <= MAX_TX_CAP
    requires insert != extract
    ensures forall i :: 0 <= i < |runs| ==> runs[i].start + runs[i].len <= cap
    ensures 1 <= |runs| <= 3 && runs[0] == Transfer(extract, 1)
  {
    var rest := DrainRuns(insert, Wrap(extract + 1, cap), cap);
    [Transfer(extract, 1)] + rest
  }

  /**
   * One contiguous run of `j` pending bytes from `extract`, followed by the
   * drain of what is left, sends exactly the pending bytes, in order.
   */
  lemma RunThenDrainEmitsPending(buf: seq<byte>, insert: nat, extract: nat, j: nat)
    requires insert < |buf| && extract < |buf| && |buf| <= MAX_TX_CAP
    requires 0 < j <= Count(insert, extract, |buf|) && extract + j <= |buf|
    ensures Emitted(buf, [Transfer(extract, j)] + DrainRuns(insert, Wrap(extract + j, |buf|), |buf|))
         == Slice(buf, extract, Count(insert, extract, |buf|))
  {
    var cap := |buf|;
    var n := Count(insert, extract, cap);
    var t := Transfer(extract, j);
    var next := Wrap(extract + j, cap);
    var rest := DrainRuns(insert, next, cap);
    EmittedCons(buf, t, rest);
    CountRetreat(insert, extract, cap, j);
    DrainEmitsPending(buf, insert, next);
    SliceContiguous(buf, extract, j);
    SliceSplit(buf, extract, n, j);
  }

  /**
   * A write starts transmission with a one-byte transfer at `extract`; the
   * completions that follow drain the rest. Together they send exactly the
   * pending bytes, in order.
   */
  lemma KickThenDrainEmitsPending(buf: seq<byte>, insert: nat, extract: nat)
    requires insert < |buf| && extract < |buf| && |buf| <= MAX_TX_CAP
    requires insert != extract
    ensures Emitted(buf, KickRuns(insert, extract, |buf|)) == Slice(buf, extract, Count(insert, extract, |buf|))
  {
    RunThenDrainEmitsPending(buf, insert, extract, 1);
  }

  /** A concrete straddling run: six bytes pending from slot 29 of a 32-slot ring go out as 3 + 3. */
  lemma StraddlingRunDrainsInTwo()
    ensures DrainRuns(3, 29, 32) == [Transfer(29, 3), Transfer(0, 3)]
  {
    assert NextTransfer(3, 29, 32) == Some(Transfer(29, 3));
    assert NextTransfer(3, 0, 32) == Some(Transfer(0, 3));
    assert NextTransfer(3, 3, 32) == None;
  }
}
