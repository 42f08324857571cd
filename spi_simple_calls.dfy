// What the non-blocking calls of the SPI-simple driver do to the core and to
// the access log, written as functions over the bus, and the properties of each
// call: its error conditions, the register accesses it makes and their order.
// Also the predicates on the access log that specify the polling calls.

module SpiSimpleCalls {
  import opened SpiSimpleH
  import opened SpiSimpleSim

  datatype Option<T> = None | Some(value: T)

  /** The outcome of a driver call: its return code, the word it stores through
      its rxData_p out-pointer (None when it stores nothing) and the bus afterwards. */
  datatype Call = Call(code: ErrCode, rxData: Option<bv32>, bus: Bus)

  // ---------------------------------------------------------------------------
  // The access log

  /** The accesses made after the log had n entries. */
  function Since(b: Bus, n: nat): seq<Access>
    requires n <= |b.log|
  {
    b.log[n..]
  }

  /** Every access in s is a read of STATUS. */
  predicate OnlyStatusReads(s: seq<Access>) {
    forall i :: 0 <= i < |s| ==> s[i].Read? && s[i].offset == REG_STATUS
  }

  /** The last access of t is a. */
  predicate EndsWith(t: seq<Access>, a: Access) {
    |t| > 0 && t[|t| - 1] == a
  }

  /** The last access of t is a STATUS read that shows the core idle (BUSY clear). */
  predicate EndsIdle(t: seq<Access>) {
    |t| > 0 && t[|t| - 1].Read? && t[|t| - 1].offset == REG_STATUS && t[|t| - 1].value & STATUS_BUSY == 0
  }

  /** A proper prefix of a log stays one when accesses are appended to the log. */
  lemma PrefixAppend(t0: seq<Access>, t1: seq<Access>, d: seq<Access>)
    requires t0 <= t1 && |t0| < |t1| + |d|
    ensures t0 < t1 + d
  {
  }

  /** Being a proper prefix is transitive. */
  lemma PrefixTrans(t0: seq<Access>, t1: seq<Access>, t: seq<Access>)
    requires t0 < t1 && t1 < t
    ensures t0 < t
  {
  }

  /** t is t0 followed by one or more STATUS reads: what a poll loop leaves in the log. */
  predicate StatusReadsSince(t0: seq<Access>, t: seq<Access>) {
    t0 < t && OnlyStatusReads(t[|t0|..])
  }

  // ---------------------------------------------------------------------------
  // Status functions

  /** Read STATUS and test the bits of mask: the shape of every Is* status function. */
  function StatusFlag(b: Bus, mask: bv32): (r: (bool, Bus))
    requires b.core.Valid()
    ensures r.0 == (Status(b.core) & mask != 0)
    ensures r.1 == Bus(Complete(b.core), b.log + [Read(REG_STATUS, Status(b.core))])
  {
    var (v, b1) := Rd(b, REG_STATUS);
    (v & mask != 0, b1)
  }

  // ---------------------------------------------------------------------------
  // Helper functions

  function SetSlaveNr(b: Bus, slave: bv8): (r: Bus)
    requires b.core.Valid()
    ensures r.core.Valid() && SameDevice(b.core, r.core)
  {
    Wr(b, REG_SLAVE_NR, slave as bv32)
  }

  function SetStoreRx(b: Bus, storeRx: bool): (r: Bus)
    requires b.core.Valid()
    ensures r.core.Valid() && SameDevice(b.core, r.core)
  {
    Wr(b, REG_STORE_RX, if storeRx then 1 else 0)
  }

  // ---------------------------------------------------------------------------
  // Access functions

  function TxNonBlocking(b: Bus, slave: bv8, txData: bv32): (r: Call)
    requires b.core.Valid()
    ensures r.bus.core.Valid() && SameDevice(b.core, r.bus.core)
  {
    var (txFull, b1) := StatusFlag(b, STATUS_TX_FULL);
    if txFull then Call(TxFifoFull, None, b1)
    else
      var b2 := SetStoreRx(SetSlaveNr(b1, slave), false);
      Call(Success, None, Wr(b2, REG_DATA, txData))
  }

  function RxTxNonBlocking(b: Bus, slave: bv8, txData: bv32): (r: Call)
    requires b.core.Valid()
    ensures r.bus.core.Valid() && SameDevice(b.core, r.bus.core)
  {
    var (txFull, b1) := StatusFlag(b, STATUS_TX_FULL);
    if txFull then Call(TxFifoFull, None, b1)
    else
      var (rxFull, b2) := StatusFlag(b1, STATUS_RX_FULL);
      if rxFull then Call(RxFifoFull, None, b2)
      else
        var b3 := SetStoreRx(SetSlaveNr(b2, slave), true);
        Call(Success, None, Wr(b3, REG_DATA, txData))
  }

  function GetRxData(b: Bus): (r: Call)
    requires b.core.Valid()
    ensures r.bus.core.Valid() && SameDevice(b.core, r.bus.core)
  {
    var (rxEmpty, b1) := StatusFlag(b, STATUS_RX_EMPTY);
    if rxEmpty then Call(RxFifoEmpty, None, b1)
    else
      var (v, b2) := Rd(b1, REG_DATA);
      Call(Success, Some(v), b2)
  }

  // ---------------------------------------------------------------------------
  // Properties of the access functions

  /** A non-blocking TX succeeds exactly when STATUS shows room in the TX FIFO. When it
      is full, the only access is the STATUS read; otherwise SLAVE_NR, STORE_RX = 0 and
      DATA are written in that order, and the word joins the TX FIFO. */
  lemma TxNonBlockingSpec(b: Bus, slave: bv8, txData: bv32)
    requires b.core.Valid()
    ensures var r := TxNonBlocking(b, slave, txData);
      && r.rxData == None
      && (r.code == TxFifoFull <==> TxFull(b.core))
      && (r.code == Success <==> !TxFull(b.core))
      && (TxFull(b.core) ==> r.bus == Bus(Complete(b.core), b.log + [Read(REG_STATUS, Status(b.core))]))
      && (!TxFull(b.core) ==>
         && r.bus.log == b.log + [Read(REG_STATUS, Status(b.core)), Write(REG_SLAVE_NR, slave as bv32),
                                  Write(REG_STORE_RX, 0), Write(REG_DATA, txData)]
         && r.bus.core.tx == Complete(b.core).tx + [Transfer(txData, slave as bv32, false)]
         && r.bus.core.rx == Complete(b.core).rx)
  {
    StatusBits(b.core);
  }

  /** A non-blocking TX does not change what the RX FIFO holds once the core is idle:
      its transfer does not store a reply. */
  lemma TxNonBlockingKeepsDrainRx(b: Bus, slave: bv8, txData: bv32)
    requires b.core.Valid()
    ensures Drain(TxNonBlocking(b, slave, txData).bus.core).rx == Drain(b.core).rx
  {
    TxNonBlockingSpec(b, slave, txData);
    var x := Complete(b.core);
    var r := TxNonBlocking(b, slave, txData);
    assert Drain(x) == Drain(b.core);
    if !TxFull(b.core) {
      var t := Transfer(txData, slave as bv32, false);
      DrainRxSame(r.bus.core, x.(tx := x.tx + [t]));
      DrainAppendNoStore(x, t);
    }
  }

  /** A non-blocking RX/TX tests TX-full first and RX-full second: both full gives
      TxFifoFull, RX full alone RxFifoFull, and neither failure writes a register. The RX
      test looks only at the RX FIFO's current level, not at the replies still to come. */
  lemma RxTxNonBlockingChecks(b: Bus, slave: bv8, txData: bv32)
    requires b.core.Valid()
    ensures var r := RxTxNonBlocking(b, slave, txData);
      && r.rxData == None
      && (r.code == TxFifoFull <==> TxFull(b.core))
      && (r.code == RxFifoFull <==> !TxFull(b.core) && RxFull(Complete(b.core)))
      && (r.code == Success <==> !TxFull(b.core) && !RxFull(Complete(b.core)))
      && (r.code != Success ==> OnlyStatusReads(Since(r.bus, |b.log|)) && 1 <= |Since(r.bus, |b.log|)| <= 2)
  {
    StatusBits(b.core);
    StatusBits(Complete(b.core));
  }

  /** A non-blocking RX/TX that passes both checks writes SLAVE_NR, STORE_RX = 1 and
      DATA, DATA last, and queues the word for the slave with its reply to be stored. */
  lemma RxTxNonBlockingIssues(b: Bus, slave: bv8, txData: bv32)
    requires b.core.Valid() && !TxFull(b.core) && !RxFull(Complete(b.core))
    ensures var r := RxTxNonBlocking(b, slave, txData);
      var c1 := Complete(b.core);
      && r.code == Success
      && r.bus.log == b.log + [Read(REG_STATUS, Status(b.core)), Read(REG_STATUS, Status(c1)),
                               Write(REG_SLAVE_NR, slave as bv32), Write(REG_STORE_RX, 1), Write(REG_DATA, txData)]
      && r.bus.core.tx == Complete(c1).tx + [Transfer(txData, slave as bv32, true)]
      && r.bus.core.rx == Complete(c1).rx
  {
    StatusBits(b.core);
    StatusBits(Complete(b.core));
  }

  /** Reading RX data fails with RxFifoEmpty exactly when STATUS shows the RX FIFO empty;
      then it stores nothing and does not read DATA. Otherwise it returns the oldest
      RX word and removes exactly that word. */
  lemma GetRxDataSpec(b: Bus)
    requires b.core.Valid()
    ensures var r := GetRxData(b);
      && (r.code == RxFifoEmpty <==> b.core.rx == [])
      && (r.code == Success <==> b.core.rx != [])
      && (b.core.rx == [] ==>
         && r.rxData == None && r.bus == Bus(Complete(b.core), b.log + [Read(REG_STATUS, Status(b.core))]))
      && (b.core.rx != [] ==>
         && r.rxData == Some(b.core.rx[0])
         && r.bus.log == b.log + [Read(REG_STATUS, Status(b.core)), Read(REG_DATA, b.core.rx[0])]
         && [b.core.rx[0]] + r.bus.core.rx == Complete(b.core).rx
         && r.bus.core.tx == Complete(b.core).tx)
  {
    StatusBits(b.core);
  }
}
