// A simulated SPI-simple core behind the 32-bit register window that the
// driver reads and writes. It stands in for the platform's register access
// primitives: every access is applied to the simulated core state and
// recorded, in order, in an access log.

module SpiSimpleSim {
  import opened SpiSimpleH

  /** The largest FIFO depth whose level still fits a 32-bit level register. */
  const MAX_DEPTH: nat := 0xFFFF_FFFF

  /** One word queued for transfer: the word shifted out, the SLAVE_NR register
      value and whether STORE_RX was 1 when the DATA register was written. */
  datatype Transfer = Transfer(data: bv32, slave: bv32, storeRx: bool)

  /** One register access of the driver: its kind, the register offset and the value moved. */
  datatype Access = Read(offset: bv32, value: bv32) | Write(offset: bv32, value: bv32)

  /** The state of the simulated core. The TX FIFO holds the transfers not yet
      completed (the oldest one is the one being shifted out), the RX FIFO the
      received words not yet read. slaveReply is what the selected slave shifts
      back for a given slave number and transmitted word. */
  datatype Core = Core(
    tx: seq<Transfer>, txDepth: nat,
    rx: seq<bv32>, rxDepth: nat,
    slaveNr: bv32, storeRx: bv32,
    txAlmEmptyLvl: bv32, rxAlmFullLvl: bv32,
    irqVec: bv32, irqEna: bv32,
    slaveReply: (bv32, bv32) -> bv32)
  {
    /** Both FIFOs have a positive depth whose level fits 32 bits, and neither holds more than its depth. */
    predicate Valid() {
      1 <= txDepth <= MAX_DEPTH && 1 <= rxDepth <= MAX_DEPTH &&
      |tx| <= txDepth && |rx| <= rxDepth
    }
  }

  /** The core after reset: both FIFOs empty, every configuration register zero (so no IRQ enabled). */
  function PowerOn(txDepth: nat, rxDepth: nat, slaveReply: (bv32, bv32) -> bv32): (c: Core)
    requires 1 <= txDepth <= MAX_DEPTH && 1 <= rxDepth <= MAX_DEPTH
    ensures c.Valid() && c.tx == [] && c.rx == [] && c.irqEna == 0 && c.irqVec == 0
  {
    Core([], txDepth, [], rxDepth, 0, 0, 0, 0, 0, 0, slaveReply)
  }

  /** Two states of the same device: same FIFO depths and the same slaves attached. */
  ghost predicate SameDevice(c: Core, d: Core) {
    c.txDepth == d.txDepth && c.rxDepth == d.rxDepth && c.slaveReply == d.slaveReply
  }

  /** c and d hold the same configuration: SLAVE_NR, STORE_RX, both thresholds and the IRQ enable mask. */
  predicate SameSettings(c: Core, d: Core) {
    c.slaveNr == d.slaveNr && c.storeRx == d.storeRx &&
    c.txAlmEmptyLvl == d.txAlmEmptyLvl && c.rxAlmFullLvl == d.rxAlmFullLvl && c.irqEna == d.irqEna
  }

  predicate TxFull(c: Core) { |c.tx| >= c.txDepth }
  predicate RxFull(c: Core) { |c.rx| >= c.rxDepth }

  function Flag(b: bool, mask: bv32): bv32 { if b then mask else 0 }

  /** The condition STATUS bit i reports: TX empty, TX full, TX almost empty (fewer
      entries than the threshold), RX empty, RX full, RX almost full (at least the
      threshold) and busy (a transfer still queued). */
  predicate StatusCond(c: Core, i: nat) {
    if i == 0 then |c.tx| == 0
    else if i == 1 then TxFull(c)
    else if i == 2 then |c.tx| < c.txAlmEmptyLvl as int
    else if i == 3 then |c.rx| == 0
    else if i == 4 then RxFull(c)
    else if i == 5 then |c.rx| >= c.rxAlmFullLvl as int
    else |c.tx| > 0
  }

  /** Bits 0 to k-1 of STATUS, each set iff its condition holds. */
  function StatusBelow(c: Core, k: nat): bv32
    requires k <= 7
  {
    if k == 0 then 0 else StatusBelow(c, k - 1) | Flag(StatusCond(c, k - 1), STATUS_MASKS[k - 1])
  }

  /** The STATUS register, synthesised from the FIFOs and the thresholds. */
  function Status(c: Core): bv32 {
    StatusBelow(c, 7)
  }

  /** Bits 0 to 3 of STATUS written out flag by flag. */
  lemma StatusLowUnfold(c: Core)
    ensures StatusBelow(c, 4) ==
      Flag(StatusCond(c, 0), STATUS_TX_EMPTY) | Flag(StatusCond(c, 1), STATUS_TX_FULL) |
      Flag(StatusCond(c, 2), STATUS_TX_ALM_EMPTY) | Flag(StatusCond(c, 3), STATUS_RX_EMPTY)
  {
    assert StatusBelow(c, 2) == StatusBelow(c, 1) | Flag(StatusCond(c, 1), STATUS_TX_FULL);
  }

  /** STATUS written out flag by flag. */
  lemma StatusUnfold(c: Core)
    ensures Status(c) ==
      Flag(StatusCond(c, 0), STATUS_TX_EMPTY) | Flag(StatusCond(c, 1), STATUS_TX_FULL) |
      Flag(StatusCond(c, 2), STATUS_TX_ALM_EMPTY) | Flag(StatusCond(c, 3), STATUS_RX_EMPTY) |
      Flag(StatusCond(c, 4), STATUS_RX_FULL) | Flag(StatusCond(c, 5), STATUS_RX_ALM_FULL) |
      Flag(StatusCond(c, 6), STATUS_BUSY)
  {
    StatusLowUnfold(c);
    assert StatusBelow(c, 6) == StatusBelow(c, 5) | Flag(StatusCond(c, 5), STATUS_RX_ALM_FULL);
  }

  /** Each STATUS bit reports its own condition of the FIFOs, and no bit above BUSY is set. */
  lemma StatusBits(c: Core)
    ensures (Status(c) & STATUS_TX_EMPTY != 0) == (|c.tx| == 0)
    ensures (Status(c) & STATUS_TX_FULL != 0) == TxFull(c)
    ensures (Status(c) & STATUS_TX_ALM_EMPTY != 0) == (|c.tx| < c.txAlmEmptyLvl as int)
    ensures (Status(c) & STATUS_RX_EMPTY != 0) == (|c.rx| == 0)
    ensures (Status(c) & STATUS_RX_FULL != 0) == RxFull(c)
    ensures (Status(c) & STATUS_RX_ALM_FULL != 0) == (|c.rx| >= c.rxAlmFullLvl as int)
    ensures (Status(c) & STATUS_BUSY != 0) == (|c.tx| > 0)
    ensures Status(c) < 0x80
  {
    StatusUnfold(c);
  }

  /** The oldest transfer finishes: it leaves the TX FIFO, its reply is captured in the
      RX FIFO if it was issued with STORE_RX = 1 and there is room (otherwise the reply
      is lost), and the IRQ vector latches transfer-done, TX-empty and RX-full. */
  function Complete(c: Core): (d: Core)
    ensures SameDevice(c, d) && SameSettings(c, d)
    ensures c.Valid() ==> d.Valid()
    ensures d.tx == if c.tx == [] then [] else c.tx[1..]
    ensures c.rx <= d.rx && |d.rx| <= |c.rx| + 1
  {
    if c.tx == [] then c
    else
      var t := c.tx[0];
      var stored := t.storeRx && |c.rx| < c.rxDepth;
      var rx := if stored then c.rx + [c.slaveReply(t.slave, t.data)] else c.rx;
      c.(tx := c.tx[1..], rx := rx, irqVec := Latch(c.irqVec, |c.tx| == 1, stored && |rx| == c.rxDepth))
  }

  /** The IRQ vector once a transfer completes: TF_DONE is latched, TX_EMPTY too when it
      was the last queued transfer, RX_FULL when its reply filled the RX FIFO. */
  function Latch(vec: bv32, txEmptied: bool, rxFilled: bool): bv32 {
    vec | IRQ_TF_DONE | Flag(txEmptied, IRQ_TX_EMPTY) | Flag(rxFilled, IRQ_RX_FULL)
  }

  /** The core once every queued transfer has completed: where a wait for the core to become idle ends. */
  function Drain(c: Core): (d: Core)
    requires c.Valid()
    ensures d.Valid() && SameDevice(c, d) && SameSettings(c, d)
    ensures d.tx == [] && c.rx <= d.rx
    decreases |c.tx|
  {
    if c.tx == [] then c else Drain(Complete(c))
  }

  /** What the RX FIFO holds once idle depends only on the queued transfers, the RX FIFO
      and the device, not on the configuration registers or the IRQ vector. */
  lemma {:induction false} DrainRxSame(c: Core, d: Core)
    requires c.Valid() && d.Valid() && SameDevice(c, d) && c.tx == d.tx && c.rx == d.rx
    ensures Drain(c).rx == Drain(d).rx
    decreases |c.tx|
  {
    if c.tx != [] {
      DrainRxSame(Complete(c), Complete(d));
    }
  }

  /** A transfer queued without reply storage adds nothing to the RX FIFO once idle. */
  lemma {:induction false} DrainAppendNoStore(c: Core, t: Transfer)
    requires c.Valid() && |c.tx| < c.txDepth && !t.storeRx
    ensures Drain(c.(tx := c.tx + [t])).rx == Drain(c).rx
    decreases |c.tx|
  {
    var e := c.(tx := c.tx + [t]);
    if c.tx == [] {
      assert Complete(e).tx == [] && Complete(e).rx == c.rx;
    } else {
      var c1 := Complete(c);
      assert e.tx[0] == c.tx[0] && e.tx[1..] == c.tx[1..] + [t];
      DrainAppendNoStore(c1, t);
      DrainRxSame(Complete(e), c1.(tx := c1.tx + [t]));
    }
  }

  /** A core whose only queued transfer stores its reply into an empty RX FIFO ends, once
      idle, with exactly that reply in the RX FIFO. */
  lemma DrainOne(c: Core)
    requires c.Valid() && |c.tx| == 1 && c.tx[0].storeRx && c.rx == []
    ensures Drain(c).tx == [] && Drain(c).rx == [c.slaveReply(c.tx[0].slave, c.tx[0].data)]
  {
    assert Drain(Complete(c)) == Complete(c);
  }

  /** Reading a register: the value read and the core afterwards. Reading DATA pops the
      oldest RX word (0 when the RX FIFO is empty); reading STATUS samples it, then the
      oldest transfer completes; write-only registers read as 0. */
  function ReadReg(c: Core, offset: bv32): (r: (bv32, Core))
    requires c.Valid()
    ensures r.1.Valid() && SameDevice(c, r.1)
  {
    if offset == REG_DATA then
      if c.rx == [] then (0, c) else (c.rx[0], c.(rx := c.rx[1..]))
    else if offset == REG_STATUS then (Status(c), Complete(c))
    else if offset == REG_RX_LEVEL then (|c.rx| as bv32, c)
    else if offset == REG_TX_LEVEL then (|c.tx| as bv32, c)
    else if offset == REG_IRQ_VEC then (c.irqVec, c)
    else (0, c)
  }

  /** Writing a register. Writing DATA queues a transfer to the current SLAVE_NR, with
      its reply to be stored iff STORE_RX is 1 (a word written to a full TX FIFO is lost);
      writing IRQ_VEC clears the bits that are 1 in the value; writes to read-only
      registers have no effect. */
  function WriteReg(c: Core, offset: bv32, v: bv32): (d: Core)
    requires c.Valid()
    ensures d.Valid() && SameDevice(c, d)
  {
    if offset == REG_DATA then
      if |c.tx| < c.txDepth then c.(tx := c.tx + [Transfer(v, c.slaveNr, c.storeRx == 1)]) else c
    else if offset == REG_SLAVE_NR then c.(slaveNr := v)
    else if offset == REG_STORE_RX then c.(storeRx := v)
    else if offset == REG_TX_ALM_EMPTY_LVL then c.(txAlmEmptyLvl := v)
    else if offset == REG_RX_ALM_FULL_LVL then c.(rxAlmFullLvl := v)
    else if offset == REG_IRQ_VEC then c.(irqVec := c.irqVec & !v)
    else if offset == REG_IRQ_ENA then c.(irqEna := v)
    else c
  }

  /** Writing IRQ_VEC is write-one-to-clear: IRQ bit i is set afterwards iff it was set
      before and the written mask does not have it; nothing but the IRQ vector changes. */
  lemma ClearIrqBits(c: Core, mask: bv32, i: nat)
    requires c.Valid() && i < |IRQ_MASKS|
    ensures var d := WriteReg(c, REG_IRQ_VEC, mask);
      && (d.irqVec & IRQ_MASKS[i] != 0) == (c.irqVec & IRQ_MASKS[i] != 0 && mask & IRQ_MASKS[i] == 0)
      && d.(irqVec := c.irqVec) == c
  {
    var m := IRQ_MASKS[i];
    if i == 0 { assert m == 1; }
    else if i == 1 { assert m == 2; }
    else if i == 2 { assert m == 4; }
    else if i == 3 { assert m == 8; }
    else { assert m == 16; }
  }

  /** The IRQ vector latches events whatever the enable mask: a disabled bit is latched
      just like an enabled one. */
  lemma IrqLatchIgnoresEnable(c: Core, ena: bv32)
    ensures Complete(c.(irqEna := ena)).irqVec == Complete(c).irqVec
    ensures Complete(c.(irqEna := ena)) == Complete(c).(irqEna := ena)
  {
  }

  /** Reading the IRQ vector and writing the word read back clears every bit that was read. */
  lemma IrqReadThenClear(c: Core)
    requires c.Valid()
    ensures var (v, c1) := ReadReg(c, REG_IRQ_VEC);
      v == c.irqVec && WriteReg(c1, REG_IRQ_VEC, v) == c.(irqVec := 0)
  {
  }

  /** Writing IRQ_ENA replaces the enable mask: the result does not depend on the old mask. */
  lemma SetIrqEnaReplaces(c: Core, old_ena: bv32, mask: bv32)
    requires c.Valid()
    ensures WriteReg(c.(irqEna := old_ena), REG_IRQ_ENA, mask) == WriteReg(c, REG_IRQ_ENA, mask)
    ensures WriteReg(c, REG_IRQ_ENA, mask).irqEna == mask
  {
  }

  /** The core together with the log of every register access made so far. */
  datatype Bus = Bus(core: Core, log: seq<Access>)

  /** One register read on the bus. */
  function Rd(b: Bus, offset: bv32): (r: (bv32, Bus))
    requires b.core.Valid()
    ensures r.1.core.Valid() && SameDevice(b.core, r.1.core)
    ensures r.1.log == b.log + [Read(offset, r.0)]
  {
    var (v, c) := ReadReg(b.core, offset);
    (v, Bus(c, b.log + [Read(offset, v)]))
  }

  /** One register write on the bus. */
  function Wr(b: Bus, offset: bv32, v: bv32): (r: Bus)
    requires b.core.Valid()
    ensures r.core.Valid() && SameDevice(b.core, r.core)
    ensures r.log == b.log + [Write(offset, v)]
  {
    Bus(WriteReg(b.core, offset, v), b.log + [Write(offset, v)])
  }

  /** The register window of one core, as the driver sees it through its base address:
      the core, every access made so far and, among them, the writes and the reads of
      registers other than STATUS, and the transfers the core took into its TX FIFO. Only
      Read32 and Write32 extend the logs, so writes and otherReads are the subsequences of
      trace that they name, and accepted grows only by a DATA write the FIFO had room for. */
  class Device {
    var core: Core
    ghost var trace: seq<Access>
    ghost var writes: seq<Access>
    ghost var otherReads: seq<Access>
    ghost var accepted: seq<Transfer>

    ghost predicate Valid()
      reads this
    {
      core.Valid()
    }

    /** The bus state: the core and every access made so far. */
    ghost function State(): Bus
      reads this
    {
      Bus(core, trace)
    }

    constructor (txDepth: nat, rxDepth: nat, slaveReply: (bv32, bv32) -> bv32)
      requires 1 <= txDepth <= MAX_DEPTH && 1 <= rxDepth <= MAX_DEPTH
      ensures Valid() && core == PowerOn(txDepth, rxDepth, slaveReply) && trace == [] && writes == [] && otherReads == [] && accepted == []
    {
      core := PowerOn(txDepth, rxDepth, slaveReply);
      trace := [];
      writes := [];
      otherReads := [];
      accepted := [];
    }

    /** The platform's 32-bit register read. */
    method Read32(offset: bv32) returns (v: bv32)
      requires Valid()
      modifies this
      ensures Valid()
      ensures (v, State()) == Rd(old(State()), offset)
      ensures writes == old(writes)
      ensures otherReads == old(otherReads) + (if offset == REG_STATUS then [] else [Read(offset, v)])
      ensures accepted == old(accepted)
    {
      var r := ReadReg(core, offset);
      v, core := r.0, r.1;
      trace := trace + [Read(offset, v)];
      if offset != REG_STATUS {
        otherReads := otherReads + [Read(offset, v)];
      }
    }

    /** The platform's 32-bit register write. */
    method Write32(offset: bv32, v: bv32)
      requires Valid()
      modifies this
      ensures Valid()
      ensures State() == Wr(old(State()), offset, v)
      ensures writes == old(writes) + [Write(offset, v)]
      ensures otherReads == old(otherReads)
      ensures accepted == old(accepted) + (if offset == REG_DATA && |old(core).tx| < old(core).txDepth
                                           then [Transfer(v, old(core).slaveNr, old(core).storeRx == 1)] else [])
    {
      if offset == REG_DATA && |core.tx| < core.txDepth {
        accepted := accepted + [Transfer(v, core.slaveNr, core.storeRx == 1)];
      }
      core := WriteReg(core, offset, v);
      trace := trace + [Write(offset, v)];
      writes := writes + [Write(offset, v)];
    }
  }
}
