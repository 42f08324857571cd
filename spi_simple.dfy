// The SPI-simple driver: every function of the driver as a method that makes
// its register accesses on a Device, in the order the driver makes them.
// The non-blocking calls and the status readers are proved equal to their
// SpiSimpleCalls functions; the blocking calls, which poll STATUS in loops,
// are specified directly by the accesses they make and the state they leave.

module SpiSimple {
  import opened SpiSimpleH
  import opened SpiSimpleSim
  import Calls = SpiSimpleCalls

  /** The word an out-pointer argument points to. */
  class Word {
    var value: bv32

    constructor (v: bv32)
      ensures value == v
    {
      value := v;
    }
  }

  // ---------------------------------------------------------------------------
  // Helper functions

  /** Select the slave for the next transfers. */
  method SetSlaveNr(dev: Device, slave: bv8)
    requires dev.Valid()
    modifies dev
    ensures dev.Valid()
    ensures dev.State() == Calls.SetSlaveNr(old(dev.State()), slave)
    ensures dev.core == old(dev.core).(slaveNr := slave as bv32)
    ensures dev.trace == old(dev.trace) + [Write(REG_SLAVE_NR, slave as bv32)]
    ensures dev.writes == old(dev.writes) + [Write(REG_SLAVE_NR, slave as bv32)] && dev.otherReads == old(dev.otherReads) && dev.accepted == old(dev.accepted)
  {
    dev.Write32(REG_SLAVE_NR, slave as bv32);
  }

  /** Choose whether the replies of the next transfers are stored: STORE_RX is 1 or 0. */
  method SetStoreRx(dev: Device, storeRx: bool)
    requires dev.Valid()
    modifies dev
    ensures dev.Valid()
    ensures dev.State() == Calls.SetStoreRx(old(dev.State()), storeRx)
    ensures dev.core == old(dev.core).(storeRx := if storeRx then 1 else 0)
    ensures dev.trace == old(dev.trace) + [Write(REG_STORE_RX, if storeRx then 1 else 0)]
    ensures dev.writes == old(dev.writes) + [Write(REG_STORE_RX, if storeRx then 1 else 0)] && dev.otherReads == old(dev.otherReads) && dev.accepted == old(dev.accepted)
  {
    var val: bv32 := 0;
    if storeRx {
      val := 1;
    }
    dev.Write32(REG_STORE_RX, val);
  }

  /** Read STATUS until it shows the core idle. Only STATUS is read, the last read shows
      BUSY clear, and the core ends with every queued transfer completed. */
  method WaitNotBusy(dev: Device)
    requires dev.Valid()
    modifies dev
    ensures dev.Valid() && SameDevice(old(dev.core), dev.core)
    ensures dev.core == Drain(old(dev.core))
    ensures Calls.StatusReadsSince(old(dev.trace), dev.trace)
    ensures dev.writes == old(dev.writes) && dev.otherReads == old(dev.otherReads) && dev.accepted == old(dev.accepted)
    ensures Calls.EndsIdle(dev.trace)
  {
    var busy := IsBusy(dev);
    while busy
      invariant dev.Valid() && Drain(dev.core) == Drain(old(dev.core))
      invariant Calls.StatusReadsSince(old(dev.trace), dev.trace)
      invariant dev.writes == old(dev.writes) && dev.otherReads == old(dev.otherReads) && dev.accepted == old(dev.accepted)
      invariant !busy ==> dev.core.tx == [] && Calls.EndsIdle(dev.trace)
      decreases |dev.core.tx| + (if busy then 1 else 0)
    {
      busy := IsBusy(dev);
    }
  }

  // ---------------------------------------------------------------------------
  // Access functions

  /** Blocking TX: configure the transfer, wait for room in the TX FIFO, start the
      transfer with the non-blocking TX and wait until the core is idle. SLAVE_NR and
      STORE_RX = 0 are written twice, DATA once and last, so the reply is never stored.
      With a single caller the TX FIFO cannot fill up between the wait for room and the
      non-blocking TX, so the TxFifoFull the call would pass on never occurs: it returns
      Success, after a STATUS read that shows BUSY clear. */
  method TxBlocking(dev: Device, slave: bv8, txData: bv32) returns (r: ErrCode)
    requires dev.Valid()
    modifies dev
    ensures dev.Valid() && SameDevice(old(dev.core), dev.core)
    ensures r == Success
    ensures old(dev.trace) < dev.trace
    ensures dev.writes == old(dev.writes) + [Write(REG_SLAVE_NR, slave as bv32), Write(REG_STORE_RX, 0)] +
                          [Write(REG_SLAVE_NR, slave as bv32), Write(REG_STORE_RX, 0), Write(REG_DATA, txData)]
    ensures dev.otherReads == old(dev.otherReads)
    ensures dev.accepted == old(dev.accepted) + [Transfer(txData, slave as bv32, false)]
    ensures Calls.EndsIdle(dev.trace)
    ensures dev.core.tx == [] && dev.core.rx == Drain(old(dev.core)).rx
    ensures SameSettings(old(dev.core).(slaveNr := slave as bv32, storeRx := 0), dev.core)
  {
    ghost var w0 := dev.writes;
    SetSlaveNr(dev, slave);
    ghost var ta := dev.trace;
    SetStoreRx(dev, false);
    ghost var w1 := w0 + [Write(REG_SLAVE_NR, slave as bv32), Write(REG_STORE_RX, 0)];
    ghost var c1, t1 := dev.core, dev.trace;

    var full := IsTxFifoFull(dev);
    assert old(dev.trace) < dev.trace by {
      Calls.PrefixAppend(old(dev.trace), old(dev.trace), [Write(REG_SLAVE_NR, slave as bv32)]);
      Calls.PrefixAppend(old(dev.trace), ta, [Write(REG_STORE_RX, 0)]);
      Calls.PrefixAppend(old(dev.trace), t1, [Read(REG_STATUS, Status(c1))]);
    }
    while full
      invariant dev.Valid() && SameDevice(old(dev.core), dev.core) && SameSettings(c1, dev.core)
      invariant Drain(dev.core).rx == Drain(c1).rx
      invariant dev.writes == w1 && dev.otherReads == old(dev.otherReads) && dev.accepted == old(dev.accepted)
      invariant old(dev.trace) < dev.trace
      invariant !full ==> !TxFull(dev.core)
      decreases |dev.core.tx| + (if full then 1 else 0)
    {
      ghost var t, c := dev.trace, dev.core;
      full := IsTxFifoFull(dev);
      Calls.PrefixAppend(old(dev.trace), t, [Read(REG_STATUS, Status(c))]);
    }

    ghost var b2 := dev.State();
    Calls.TxNonBlockingSpec(b2, slave, txData);
    r := TxNonBlocking(dev, slave, txData);
    if r != Success {
      return;
    }
    DrainRxSame(c1, old(dev.core));
    Calls.TxNonBlockingKeepsDrainRx(b2, slave, txData);
    assert dev.writes == w1 + [Write(REG_SLAVE_NR, slave as bv32), Write(REG_STORE_RX, 0), Write(REG_DATA, txData)];
    assert dev.accepted == old(dev.accepted) + [Transfer(txData, slave as bv32, false)];
    ghost var t3 := dev.trace;
    WaitNotBusy(dev);
    assert old(dev.trace) < dev.trace by {
      Calls.PrefixAppend(old(dev.trace), b2.log, [Read(REG_STATUS, Status(b2.core)), Write(REG_SLAVE_NR, slave as bv32),
                                                  Write(REG_STORE_RX, 0), Write(REG_DATA, txData)]);
      Calls.PrefixTrans(old(dev.trace), t3, dev.trace);
    }
    return Success;
  }

  /** Blocking RX/TX: wait until the core is idle; fail with RxFifoNotEmpty, writing
      nothing, if a stale word is then in the RX FIFO; otherwise configure the transfer,
      start it with the non-blocking RX/TX, wait until idle again and read the reply.
      With a single caller the errors the call would pass on from the non-blocking RX/TX
      and from the RX read never occur: on success the word stored through rxData_p is
      the reply of the slave to this very transfer, read from DATA by the last access,
      and both FIFOs are left empty. */
  method RxTxBlocking(dev: Device, slave: bv8, txData: bv32, rxData_p: Word) returns (r: ErrCode)
    requires dev.Valid()
    modifies dev, rxData_p
    ensures dev.Valid() && SameDevice(old(dev.core), dev.core)
    ensures r == RxFifoNotEmpty <==> Drain(old(dev.core)).rx != []
    ensures r == Success <==> Drain(old(dev.core)).rx == []
    ensures old(dev.trace) < dev.trace
    ensures r == RxFifoNotEmpty ==>
      && rxData_p.value == old(rxData_p.value)
      && dev.writes == old(dev.writes) && dev.otherReads == old(dev.otherReads) && dev.accepted == old(dev.accepted)
      && dev.core == Drain(old(dev.core))
    ensures r == Success ==>
      && rxData_p.value == old(dev.core).slaveReply(slave as bv32, txData)
      && dev.writes == old(dev.writes) + [Write(REG_SLAVE_NR, slave as bv32), Write(REG_STORE_RX, 1)] +
                       [Write(REG_SLAVE_NR, slave as bv32), Write(REG_STORE_RX, 1), Write(REG_DATA, txData)]
      && dev.otherReads == old(dev.otherReads) + [Read(REG_DATA, rxData_p.value)]
      && dev.accepted == old(dev.accepted) + [Transfer(txData, slave as bv32, true)]
      && Calls.EndsWith(dev.trace, Read(REG_DATA, rxData_p.value))
      && |dev.trace| >= 3 && Calls.EndsIdle(dev.trace[..|dev.trace| - 2])
      && dev.core.tx == [] && dev.core.rx == []
      && SameSettings(old(dev.core).(slaveNr := slave as bv32, storeRx := 1), dev.core)
  {
    ghost var w0, a0 := dev.writes, dev.accepted;
    WaitNotBusy(dev);
    ghost var f, t1 := dev.core, dev.trace;

    var empty := IsRxFifoEmpty(dev);
    if !empty {
      assert old(dev.trace) < dev.trace by {
        Calls.PrefixAppend(old(dev.trace), t1, [Read(REG_STATUS, Status(f))]);
      }
      return RxFifoNotEmpty;
    }

    ghost var ta := dev.trace;
    SetSlaveNr(dev, slave);
    ghost var tb := dev.trace;
    SetStoreRx(dev, true);
    ghost var b2 := dev.State();
    assert b2.core.tx == [] && b2.core.rx == [];
    ghost var w1 := w0 + [Write(REG_SLAVE_NR, slave as bv32), Write(REG_STORE_RX, 1)];
    assert dev.writes == w1;
    Calls.RxTxNonBlockingIssues(b2, slave, txData);
    assert dev.accepted == a0;
    r := RxTxNonBlocking(dev, slave, txData);
    if r != Success {
      return;
    }
    ghost var issued := dev.core;
    assert dev.accepted == a0 + [Transfer(txData, slave as bv32, true)];
    assert dev.writes == w1 + [Write(REG_SLAVE_NR, slave as bv32), Write(REG_STORE_RX, 1), Write(REG_DATA, txData)];
    assert issued.tx == [Transfer(txData, slave as bv32, true)] && issued.rx == [];

    ghost var t3 := dev.trace;
    DrainOne(issued);
    WaitNotBusy(dev);
    assert dev.core.tx == [] && dev.core.rx == [old(dev.core).slaveReply(slave as bv32, txData)];
    assert Complete(dev.core) == dev.core;

    ghost var t2, c2 := dev.trace, dev.core;
    Calls.GetRxDataSpec(dev.State());
    r := GetRxData(dev, rxData_p);
    assert dev.trace[..|dev.trace| - 2] == t2;
    if r != Success {
      return;
    }
    assert old(dev.trace) < dev.trace by {
      Calls.PrefixAppend(old(dev.trace), t1, [Read(REG_STATUS, Status(f))]);
      Calls.PrefixAppend(old(dev.trace), ta, [Write(REG_SLAVE_NR, slave as bv32)]);
      Calls.PrefixAppend(old(dev.trace), tb, [Write(REG_STORE_RX, 1)]);
      Calls.PrefixAppend(old(dev.trace), b2.log, [Read(REG_STATUS, Status(b2.core)), Read(REG_STATUS, Status(Complete(b2.core))),
                                                  Write(REG_SLAVE_NR, slave as bv32), Write(REG_STORE_RX, 1), Write(REG_DATA, txData)]);
      Calls.PrefixTrans(old(dev.trace), t3, t2);
      Calls.PrefixAppend(old(dev.trace), t2, [Read(REG_STATUS, Status(c2)), Read(REG_DATA, c2.rx[0])]);
    }
    return Success;
  }

  /** Non-blocking TX: fail with TxFifoFull if STATUS shows the TX FIFO full, otherwise
      write SLAVE_NR, STORE_RX = 0 and DATA. */
  method TxNonBlocking(dev: Device, slave: bv8, txData: bv32) returns (r: ErrCode)
    requires dev.Valid()
    modifies dev
    ensures dev.Valid()
    ensures var call := Calls.TxNonBlocking(old(dev.State()), slave, txData);
      r == call.code && dev.State() == call.bus
    ensures dev.writes == old(dev.writes) +
      (if r == Success then [Write(REG_SLAVE_NR, slave as bv32), Write(REG_STORE_RX, 0), Write(REG_DATA, txData)] else [])
    ensures dev.otherReads == old(dev.otherReads)
    ensures dev.accepted == old(dev.accepted) + (if r == Success then [Transfer(txData, slave as bv32, false)] else [])
    ensures SameSettings(if r == Success then old(dev.core).(slaveNr := slave as bv32, storeRx := 0) else old(dev.core), dev.core)
  {
    StatusBits(dev.core);
    var full := IsTxFifoFull(dev);
    if full {
      return TxFifoFull;
    }
    SetSlaveNr(dev, slave);
    SetStoreRx(dev, false);
    assert |dev.core.tx| < dev.core.txDepth && dev.core.slaveNr == slave as bv32 && dev.core.storeRx == 0;
    dev.Write32(REG_DATA, txData);
    return Success;
  }

  /** Non-blocking RX/TX: fail with TxFifoFull if STATUS shows the TX FIFO full, then with
      RxFifoFull if a second STATUS read shows the RX FIFO full, otherwise write SLAVE_NR,
      STORE_RX = 1 and DATA. */
  method RxTxNonBlocking(dev: Device, slave: bv8, txData: bv32) returns (r: ErrCode)
    requires dev.Valid()
    modifies dev
    ensures dev.Valid()
    ensures var call := Calls.RxTxNonBlocking(old(dev.State()), slave, txData);
      r == call.code && dev.State() == call.bus
    ensures dev.writes == old(dev.writes) +
      (if r == Success then [Write(REG_SLAVE_NR, slave as bv32), Write(REG_STORE_RX, 1), Write(REG_DATA, txData)] else [])
    ensures dev.otherReads == old(dev.otherReads)
    ensures r == Success ==> dev.accepted == old(dev.accepted) + [Transfer(txData, slave as bv32, true)]
    ensures r != Success ==> dev.accepted == old(dev.accepted)
    ensures SameSettings(if r == Success then old(dev.core).(slaveNr := slave as bv32, storeRx := 1) else old(dev.core), dev.core)
  {
    StatusBits(dev.core);
    StatusBits(Complete(dev.core));
    ghost var b0 := dev.State();
    var txFull := IsTxFifoFull(dev);
    assert (txFull, dev.State()) == Calls.StatusFlag(b0, STATUS_TX_FULL);
    if txFull {
      return TxFifoFull;
    }
    ghost var b1 := dev.State();
    var rxFull := IsRxFifoFull(dev);
    assert (rxFull, dev.State()) == Calls.StatusFlag(b1, STATUS_RX_FULL);
    if rxFull {
      return RxFifoFull;
    }
    SetSlaveNr(dev, slave);
    SetStoreRx(dev, true);
    assert |dev.core.tx| < dev.core.txDepth && dev.core.slaveNr == slave as bv32 && dev.core.storeRx == 1;
    dev.Write32(REG_DATA, txData);
    return Success;
  }

  /** Read one RX word: fail with RxFifoEmpty if STATUS shows the RX FIFO empty, leaving
      *rxData_p alone; otherwise read DATA into *rxData_p. */
  method GetRxData(dev: Device, rxData_p: Word) returns (r: ErrCode)
    requires dev.Valid()
    modifies dev, rxData_p
    ensures dev.Valid()
    ensures var call := Calls.GetRxData(old(dev.State()));
      && r == call.code && dev.State() == call.bus
      && rxData_p.value == (if call.rxData.Some? then call.rxData.value else old(rxData_p.value))
    ensures dev.writes == old(dev.writes) && dev.accepted == old(dev.accepted)
    ensures dev.otherReads == old(dev.otherReads) + (if r == Success then [Read(REG_DATA, rxData_p.value)] else [])
    ensures r == Success ==> Calls.EndsWith(dev.trace, Read(REG_DATA, rxData_p.value))
    ensures SameSettings(old(dev.core), dev.core)
  {
    StatusBits(dev.core);
    var empty := IsRxFifoEmpty(dev);
    if empty {
      return RxFifoEmpty;
    }
    var v := dev.Read32(REG_DATA);
    rxData_p.value := v;
    return Success;
  }

  // ---------------------------------------------------------------------------
  // Status functions

  /** Test the TX-full bit of STATUS. */
  method IsTxFifoFull(dev: Device) returns (full: bool)
    requires dev.Valid()
    modifies dev
    ensures dev.Valid()
    ensures full == TxFull(old(dev.core)) && (Status(old(dev.core)) & STATUS_TX_FULL != 0) == full
    ensures dev.core == Complete(old(dev.core))
    ensures dev.trace == old(dev.trace) + [Read(REG_STATUS, Status(old(dev.core)))]
    ensures dev.writes == old(dev.writes) && dev.otherReads == old(dev.otherReads) && dev.accepted == old(dev.accepted)
  {
    var status := GetStatusReg(dev);
    StatusBits(old(dev.core));
    full := status & STATUS_TX_FULL != 0;
  }

  /** Test the TX-empty bit of STATUS. */
  method IsTxFifoEmtpy(dev: Device) returns (empty: bool)
    requires dev.Valid()
    modifies dev
    ensures dev.Valid()
    ensures empty == (old(dev.core).tx == []) && (Status(old(dev.core)) & STATUS_TX_EMPTY != 0) == empty
    ensures dev.core == Complete(old(dev.core))
    ensures dev.trace == old(dev.trace) + [Read(REG_STATUS, Status(old(dev.core)))]
    ensures dev.writes == old(dev.writes) && dev.otherReads == old(dev.otherReads) && dev.accepted == old(dev.accepted)
  {
    var status := GetStatusReg(dev);
    StatusBits(old(dev.core));
    empty := status & STATUS_TX_EMPTY != 0;
  }

  /** Test the RX-empty bit of STATUS. */
  method IsRxFifoEmpty(dev: Device) returns (empty: bool)
    requires dev.Valid()
    modifies dev
    ensures dev.Valid()
    ensures empty == (old(dev.core).rx == []) && (Status(old(dev.core)) & STATUS_RX_EMPTY != 0) == empty
    ensures dev.core == Complete(old(dev.core))
    ensures dev.trace == old(dev.trace) + [Read(REG_STATUS, Status(old(dev.core)))]
    ensures dev.writes == old(dev.writes) && dev.otherReads == old(dev.otherReads) && dev.accepted == old(dev.accepted)
  {
    var status := GetStatusReg(dev);
    StatusBits(old(dev.core));
    empty := status & STATUS_RX_EMPTY != 0;
  }

  /** Test the RX-full bit of STATUS. */
  method IsRxFifoFull(dev: Device) returns (full: bool)
    requires dev.Valid()
    modifies dev
    ensures dev.Valid()
    ensures full == RxFull(old(dev.core)) && (Status(old(dev.core)) & STATUS_RX_FULL != 0) == full
    ensures dev.core == Complete(old(dev.core))
    ensures dev.trace == old(dev.trace) + [Read(REG_STATUS, Status(old(dev.core)))]
    ensures dev.writes == old(dev.writes) && dev.otherReads == old(dev.otherReads) && dev.accepted == old(dev.accepted)
  {
    var status := GetStatusReg(dev);
    StatusBits(old(dev.core));
    full := status & STATUS_RX_FULL != 0;
  }

  /** Test the BUSY bit of STATUS: set while a transfer is queued. */
  method IsBusy(dev: Device) returns (busy: bool)
    requires dev.Valid()
    modifies dev
    ensures dev.Valid()
    ensures busy == (old(dev.core).tx != []) && (Status(old(dev.core)) & STATUS_BUSY != 0) == busy
    ensures dev.core == Complete(old(dev.core))
    ensures dev.trace == old(dev.trace) + [Read(REG_STATUS, Status(old(dev.core)))]
    ensures dev.writes == old(dev.writes) && dev.otherReads == old(dev.otherReads) && dev.accepted == old(dev.accepted)
  {
    var status := GetStatusReg(dev);
    StatusBits(old(dev.core));
    busy := status & STATUS_BUSY != 0;
  }

  /** Read RX_LEVEL: the number of words in the RX FIFO. */
  method GetRxFifoLevel(dev: Device) returns (level: bv32)
    requires dev.Valid()
    modifies dev
    ensures dev.Valid()
    ensures (level, dev.State()) == Rd(old(dev.State()), REG_RX_LEVEL)
    ensures dev.writes == old(dev.writes) && dev.otherReads == old(dev.otherReads) + [Read(REG_RX_LEVEL, level)]
    ensures dev.accepted == old(dev.accepted)
    ensures level == |old(dev.core).rx| as bv32 && dev.core == old(dev.core)
  {
    level := dev.Read32(REG_RX_LEVEL);
  }

  /** Read TX_LEVEL: the number of transfers in the TX FIFO. */
  method GetTxFifoLevel(dev: Device) returns (level: bv32)
    requires dev.Valid()
    modifies dev
    ensures dev.Valid()
    ensures (level, dev.State()) == Rd(old(dev.State()), REG_TX_LEVEL)
    ensures dev.writes == old(dev.writes) && dev.otherReads == old(dev.otherReads) + [Read(REG_TX_LEVEL, level)]
    ensures dev.accepted == old(dev.accepted)
    ensures level == |old(dev.core).tx| as bv32 && dev.core == old(dev.core)
  {
    level := dev.Read32(REG_TX_LEVEL);
  }

  /** Read the IRQ vector. */
  method GetIrqVec(dev: Device) returns (vec: bv32)
    requires dev.Valid()
    modifies dev
    ensures dev.Valid()
    ensures (vec, dev.State()) == Rd(old(dev.State()), REG_IRQ_VEC)
    ensures dev.writes == old(dev.writes) && dev.otherReads == old(dev.otherReads) + [Read(REG_IRQ_VEC, vec)]
    ensures dev.accepted == old(dev.accepted)
    ensures vec == old(dev.core).irqVec && dev.core == old(dev.core)
  {
    vec := dev.Read32(REG_IRQ_VEC);
  }

  /** Read STATUS: the flags of the core, sampled before the oldest transfer completes. */
  method GetStatusReg(dev: Device) returns (status: bv32)
    requires dev.Valid()
    modifies dev
    ensures dev.Valid()
    ensures (status, dev.State()) == Rd(old(dev.State()), REG_STATUS)
    ensures status == Status(old(dev.core)) && dev.core == Complete(old(dev.core))
    ensures dev.trace == old(dev.trace) + [Read(REG_STATUS, status)]
    ensures dev.writes == old(dev.writes) && dev.otherReads == old(dev.otherReads) && dev.accepted == old(dev.accepted)
  {
    status := dev.Read32(REG_STATUS);
  }

  // ---------------------------------------------------------------------------
  // Configuration functions

  /** Clear the IRQ vector bits that are set in mask. */
  method ClrIrqVec(dev: Device, mask: bv32)
    requires dev.Valid()
    modifies dev
    ensures dev.Valid()
    ensures dev.State() == Wr(old(dev.State()), REG_IRQ_VEC, mask)
    ensures dev.trace == old(dev.trace) + [Write(REG_IRQ_VEC, mask)] && dev.writes == old(dev.writes) + [Write(REG_IRQ_VEC, mask)]
    ensures dev.otherReads == old(dev.otherReads) && dev.accepted == old(dev.accepted)
    ensures dev.core == old(dev.core).(irqVec := old(dev.core).irqVec & !mask)
  {
    dev.Write32(REG_IRQ_VEC, mask);
  }

  /** Set the IRQ enable mask, replacing the previous one. */
  method SetIrqEna(dev: Device, mask: bv32)
    requires dev.Valid()
    modifies dev
    ensures dev.Valid()
    ensures dev.State() == Wr(old(dev.State()), REG_IRQ_ENA, mask)
    ensures dev.trace == old(dev.trace) + [Write(REG_IRQ_ENA, mask)] && dev.writes == old(dev.writes) + [Write(REG_IRQ_ENA, mask)]
    ensures dev.otherReads == old(dev.otherReads) && dev.accepted == old(dev.accepted)
    ensures dev.core == old(dev.core).(irqEna := mask)
  {
    dev.Write32(REG_IRQ_ENA, mask);
  }

  /** Set the TX almost-empty threshold. */
  method SetTxAlmEmptyThreshold(dev: Device, threshold: bv32)
    requires dev.Valid()
    modifies dev
    ensures dev.Valid()
    ensures dev.State() == Wr(old(dev.State()), REG_TX_ALM_EMPTY_LVL, threshold)
    ensures dev.trace == old(dev.trace) + [Write(REG_TX_ALM_EMPTY_LVL, threshold)] && dev.writes == old(dev.writes) + [Write(REG_TX_ALM_EMPTY_LVL, threshold)]
    ensures dev.otherReads == old(dev.otherReads) && dev.accepted == old(dev.accepted)
    ensures dev.core == old(dev.core).(txAlmEmptyLvl := threshold)
  {
    dev.Write32(REG_TX_ALM_EMPTY_LVL, threshold);
  }

  /** Set the RX almost-full threshold. */
  method SetRxAlmFullThreshold(dev: Device, threshold: bv32)
    requires dev.Valid()
    modifies dev
    ensures dev.Valid()
    ensures dev.State() == Wr(old(dev.State()), REG_RX_ALM_FULL_LVL, threshold)
    ensures dev.trace == old(dev.trace) + [Write(REG_RX_ALM_FULL_LVL, threshold)] && dev.writes == old(dev.writes) + [Write(REG_RX_ALM_FULL_LVL, threshold)]
    ensures dev.otherReads == old(dev.otherReads) && dev.accepted == old(dev.accepted)
    ensures dev.core == old(dev.core).(rxAlmFullLvl := threshold)
  {
    dev.Write32(REG_RX_ALM_FULL_LVL, threshold);
  }
}
