# SPI-simple driver, modelled in Dafny

The SPI-simple driver talks to an SPI master core through ten 32-bit registers.
Every driver call is a short sequence of register reads and writes:

- a status reader reads STATUS and tests one bit;
- a non-blocking call checks FIFO conditions through STATUS, then either returns an
  error code or writes SLAVE_NR, STORE_RX and DATA, in that order;
- a blocking call adds polling loops on STATUS around a non-blocking call;
- the configuration calls write one register each.

The model has five modules:

- `SpiSimpleH` (`spi_simple_h.dfy`) is the header: the return codes and their numeric
  values, the register offsets, and the STATUS and IRQ bit masks, with lemmas about them.
- `SpiSimpleSim` (`spi_simple_sim.dfy`) is a simulated core behind the register window.
  - A `Core` value holds the TX FIFO (queued transfers), the RX FIFO, the configuration
    registers, the IRQ vector and enable mask, and the replies of the attached slaves.
  - STATUS is computed from the FIFOs with the header's bit layout. Each STATUS read
    samples the flags, then lets the oldest queued transfer complete. That makes the
    polling loops terminate.
  - Reading DATA pops the RX head. Writing DATA queues a transfer; its reply is stored
    only when STORE_RX is 1. Writing IRQ_VEC clears the bits written.
  - The `Device` class is the register window: the core, a ghost log of every access,
    and two ghost sub-logs, the writes and the reads of registers other than STATUS.
    A fourth ghost log holds the transfers the core accepted into its TX FIFO. A DATA
    write extends it only when the FIFO had room.
    Only its `Read32`/`Write32`, which play the platform's register access primitives,
    extend the logs.
- `SpiSimpleCalls` (`spi_simple_calls.dfy`) writes the non-blocking calls as functions
  over a `Bus` (a core plus its access log) and proves their error cases and write
  order. It also holds the access-log predicates that specify the polling calls.
- `SpiSimpleFifo` (`spi_simple_fifo.dfy`) proves the RX ordering promise. `Outstanding`
  is the RX FIFO followed by the replies still owed by queued store-RX transfers.
  - Across any sequence of non-blocking TX, RX/TX and RX-read calls that never
    overflows the RX FIFO (`NeverOverflows`: before every call, the outstanding replies
    fit it), words are read in the order the RX/TX calls were started. The condition
    is checked call by call, so such a run may make any number of RX/TX calls, as long
    as the words are read in time.
  - The lemma `RxTxNonBlockingCanOverflow` shows that a successful non-blocking RX/TX
    can still overflow the RX FIFO, as the header warns.
- `SpiSimple` (`spi_simple.dfy`) is the driver. Every C function is a method on a
  `Device` that makes the same accesses in the same order.
  - The non-blocking calls are proved equal to their `SpiSimpleCalls` functions.
  - The blocking calls keep the C polling `while` loops, with loop invariants.
  - The out-pointer `rxData_p` is a `Word` object, so "left unchanged" can be stated.
  - Both redundant SLAVE_NR/STORE_RX writes of the blocking calls are kept.
  - TX-full is tested before RX-full.
  - `IsTxFifoEmtpy` keeps the spelling of the C name.

## Model

| member | source | states |
|---|---|---|
| SpiSimpleH.Code | drivers/spi_simple/src/spi_simple.h:23-30 | A code is 0 exactly for Success; every code lies in -4..0 |
| SpiSimpleH.CodeInjective | drivers/spi_simple/src/spi_simple.h:23-30 | Two return codes with the same numeric value are the same code |
| SpiSimpleH.RegisterMapWellFormed | drivers/spi_simple/src/spi_simple.h:33-42 | The ten offsets are pairwise distinct, multiples of 4 and at most 0x24 |
| SpiSimpleH.StatusMasksAreSingleBits | drivers/spi_simple/src/spi_simple.h:45-51 | STATUS mask k selects bit k and no other (k = 0..6); the masks are pairwise disjoint |
| SpiSimpleH.IrqMasksAreSingleBits | drivers/spi_simple/src/spi_simple.h:54-58 | IRQ mask k selects bit k and no other (k = 0..4); the masks are pairwise disjoint |
| SpiSimpleSim.StatusBits | drivers/spi_simple/src/spi_simple.h:45-51 | Each STATUS bit is set iff its FIFO condition holds (TX empty, TX full, TX almost empty, RX empty, RX full, RX almost full, busy); no bit above BUSY is set |
| SpiSimpleSim.PowerOn | drivers/spi_simple/src/spi_simple.h:207-209 | After reset both FIFOs are empty, the IRQ vector is clear and every IRQ is disabled |
| SpiSimpleSim.ClearIrqBits | drivers/spi_simple/src/spi_simple.h:195-205 | After an IRQ_VEC write, an IRQ bit is set iff it was set before and the mask does not have it; nothing else in the core changes |
| SpiSimpleSim.IrqReadThenClear | drivers/spi_simple/src/spi_simple.h:196-200 | Reading IRQ_VEC and writing the value back clears the vector, and only the vector |
| SpiSimpleSim.SetIrqEnaReplaces | drivers/spi_simple/src/spi_simple.h:207-214 | Writing IRQ_ENA sets the mask to the value written, whatever the previous mask |
| SpiSimpleSim.IrqLatchIgnoresEnable | drivers/spi_simple/src/spi_simple.h:207-209 | A completing transfer latches the same IRQ bits whatever the enable mask; the enable mask itself is untouched |
| SpiSimpleCalls.StatusFlag | drivers/spi_simple/src/spi_simple.c:147-170 | A status test reads STATUS once: it returns whether the masked bits are non-zero, and the log gains only that STATUS read |
| SpiSimpleCalls.TxNonBlockingSpec | drivers/spi_simple/src/spi_simple.c:92-107 | Returns TxFifoFull iff the TX FIFO is full, with only the STATUS read logged. Otherwise returns Success after writing SLAVE_NR = slave, STORE_RX = 0 and DATA = txData, DATA last, and queues the word without reply storage |
| SpiSimpleCalls.RxTxNonBlockingChecks | drivers/spi_simple/src/spi_simple.c:109-119 | TX full gives TxFifoFull, even if RX is full too. RX full alone gives RxFifoFull. Success iff neither. A failure logs only one or two STATUS reads and no write |
| SpiSimpleCalls.RxTxNonBlockingIssues | drivers/spi_simple/src/spi_simple.c:121-127 | When both checks pass: Success, the log gains two STATUS reads then SLAVE_NR = slave, STORE_RX = 1 and DATA = txData, and the word is queued with its reply to be stored |
| SpiSimpleCalls.GetRxDataSpec | drivers/spi_simple/src/spi_simple.c:130-142 | RxFifoEmpty iff the RX FIFO is empty, with no data and no DATA read. Otherwise Success: it returns the oldest RX word and removes exactly that word |
| SpiSimpleFifo.CompleteKeepsOutstanding | drivers/spi_simple/src/spi_simple.h:108-109 | While the replies fit the RX FIFO, a completing transfer keeps the outstanding RX stream unchanged |
| SpiSimpleFifo.CompleteLosesReply | drivers/spi_simple/src/spi_simple.h:96-99 | A store-RX transfer that completes into a full RX FIFO drops its reply from the stream |
| SpiSimpleFifo.DrainOutstanding | drivers/spi_simple/src/spi_simple.h:108-109 | While the replies fit, waiting until idle leaves exactly the outstanding stream in the RX FIFO |
| SpiSimpleFifo.TxNonBlockingKeepsOutstanding | drivers/spi_simple/src/spi_simple.c:92-107 | A non-blocking TX adds nothing to the RX stream, whether it succeeds or fails |
| SpiSimpleFifo.RxTxNonBlockingAppends | drivers/spi_simple/src/spi_simple.c:109-128 | A successful non-blocking RX/TX appends its slave's reply to the end of the RX stream; a failed one leaves the stream alone |
| SpiSimpleFifo.GetRxDataPops | drivers/spi_simple/src/spi_simple.c:130-142 | A successful RX read returns the head of the RX stream and removes it; a failed one leaves the stream alone |
| SpiSimpleFifo.StepKeepsOrder | drivers/spi_simple/src/spi_simple.h:108-109 | For one call: stream before + reply issued == word read + stream after |
| SpiSimpleFifo.FifoOrder | drivers/spi_simple/src/spi_simple.h:108-109 | For any call sequence that never overflows the RX FIFO (the outstanding replies fit it before every call): stream before + replies issued == words read + stream after |
| SpiSimpleFifo.FifoReadsInIssueOrder | drivers/spi_simple/src/spi_simple.h:108-109 | Starting with nothing outstanding, for any call sequence that never overflows the RX FIFO: the words read are a prefix of the replies in RX/TX call order, and all of them once nothing is outstanding |
| SpiSimpleFifo.FewIssuesNeverOverflow | drivers/spi_simple/src/spi_simple.h:96-99 | A run whose RX/TX calls, added to the outstanding replies, fit the RX FIFO depth never overflows it |
| SpiSimpleFifo.ReadInTimeNeverOverflows | drivers/spi_simple/src/spi_simple.h:96-99 | With an RX FIFO of depth 1, a run of two RX/TX calls, each followed by two RX reads, never overflows: the order law covers more RX/TX calls than the depth |
| SpiSimpleFifo.RxTxNonBlockingCanOverflow | drivers/spi_simple/src/spi_simple.h:96-99 | An example where the non-blocking RX/TX succeeds although the replies owed exceed the RX FIFO depth; once idle the third reply is lost |
| SpiSimple.SetSlaveNr | drivers/spi_simple/src/spi_simple.c:13-16 | Writes the slave number to SLAVE_NR and nothing else |
| SpiSimple.SetStoreRx | drivers/spi_simple/src/spi_simple.c:18-25 | Writes 1 to STORE_RX when storeRx is true, 0 otherwise, and nothing else |
| SpiSimple.WaitNotBusy | drivers/spi_simple/src/spi_simple.c:27-30 | Makes one or more accesses, all STATUS reads and no writes; the last shows BUSY clear; the core ends with every queued transfer completed |
| SpiSimple.TxBlocking | drivers/spi_simple/src/spi_simple.c:37-57 | Returns Success. The access log grows: the old log is a proper prefix of the new one. Writes SLAVE_NR, STORE_RX = 0, SLAVE_NR, STORE_RX = 0, DATA = txData, in that order and nothing else. The core accepts exactly one transfer into its TX FIFO: txData to this slave, reply not stored. Every read is a STATUS read, and the last access is one showing BUSY clear. The TX FIFO ends empty, the RX FIFO holds what it would hold had the core simply run idle, SLAVE_NR = slave, STORE_RX = 0, thresholds and IRQ enable mask unchanged |
| SpiSimple.RxTxBlocking | drivers/spi_simple/src/spi_simple.c:59-90 | On either outcome the old access log is a proper prefix of the new one. RxFifoNotEmpty iff RX is non-empty once idle: no write, no transfer accepted, only STATUS reads, *rxData_p unchanged, the core idle. Otherwise Success: the two configuration writes, then SLAVE_NR, STORE_RX = 1, DATA = txData; the core accepts exactly one transfer, txData to this slave with its reply stored; every read but the last is a STATUS read; the access two before the last is a STATUS read showing BUSY clear, made after the DATA write; the last is the DATA read of *rxData_p, the slave's reply to txData; both FIFOs end empty, SLAVE_NR = slave, STORE_RX = 1, thresholds and IRQ enable mask unchanged |
| SpiSimple.TxNonBlocking | drivers/spi_simple/src/spi_simple.c:92-107 | Equals `SpiSimpleCalls.TxNonBlocking` in return code, core and log; writes SLAVE_NR, STORE_RX = 0, DATA on success and nothing on failure; on success the core accepts the transfer (txData, slave, reply not stored) into its TX FIFO, on failure it accepts none |
| SpiSimple.RxTxNonBlocking | drivers/spi_simple/src/spi_simple.c:109-128 | Equals `SpiSimpleCalls.RxTxNonBlocking` in return code, core and log; writes SLAVE_NR, STORE_RX = 1, DATA on success and nothing on failure; on success the core accepts the transfer (txData, slave, reply stored) into its TX FIFO, on failure it accepts none |
| SpiSimpleCalls.TxNonBlockingKeepsDrainRx | drivers/spi_simple/src/spi_simple.c:92-107 | A non-blocking TX never changes what the RX FIFO holds once the core is idle: its transfer stores no reply |
| SpiSimple.GetRxData | drivers/spi_simple/src/spi_simple.c:130-142 | Equals `SpiSimpleCalls.GetRxData` in return code, core and log; *rxData_p is the word returned, and is unchanged on failure; no write; on success the only non-STATUS read is the last access, the DATA read; configuration unchanged |
| SpiSimple.IsTxFifoFull | drivers/spi_simple/src/spi_simple.c:147-150 | True iff the TX FIFO is full and iff STATUS's TX_FULL bit is set; makes one STATUS read and nothing else |
| SpiSimple.IsTxFifoEmtpy | drivers/spi_simple/src/spi_simple.c:152-155 | True iff the TX FIFO is empty and iff STATUS's TX_EMPTY bit is set; makes one STATUS read and nothing else |
| SpiSimple.IsRxFifoEmpty | drivers/spi_simple/src/spi_simple.c:157-160 | True iff the RX FIFO is empty and iff STATUS's RX_EMPTY bit is set; makes one STATUS read and nothing else |
| SpiSimple.IsRxFifoFull | drivers/spi_simple/src/spi_simple.c:162-165 | True iff the RX FIFO is full and iff STATUS's RX_FULL bit is set; makes one STATUS read and nothing else |
| SpiSimple.IsBusy | drivers/spi_simple/src/spi_simple.c:167-170 | True iff a transfer is queued and iff STATUS's BUSY bit is set; makes one STATUS read and nothing else |
| SpiSimple.GetRxFifoLevel | drivers/spi_simple/src/spi_simple.c:172-175 | Reads RX_LEVEL: the number of RX words as a 32-bit word; the core is unchanged and nothing is written |
| SpiSimple.GetTxFifoLevel | drivers/spi_simple/src/spi_simple.c:177-180 | Reads TX_LEVEL: the number of queued transfers as a 32-bit word; the core is unchanged and nothing is written |
| SpiSimple.GetIrqVec | drivers/spi_simple/src/spi_simple.c:182-185 | Reads IRQ_VEC: the latched IRQ vector; the core is unchanged and nothing is written |
| SpiSimple.GetStatusReg | drivers/spi_simple/src/spi_simple.c:187-190 | Reads STATUS: the flags sampled before the oldest transfer completes; no write |
| SpiSimple.ClrIrqVec | drivers/spi_simple/src/spi_simple.c:195-198 | Writes mask, unmodified, to IRQ_VEC only: the vector loses the bits set in mask |
| SpiSimple.SetIrqEna | drivers/spi_simple/src/spi_simple.c:200-203 | Writes mask, unmodified, to IRQ_ENA only: the enable mask becomes mask |
| SpiSimple.SetTxAlmEmptyThreshold | drivers/spi_simple/src/spi_simple.c:205-208 | Writes threshold, unmodified, to TX_ALM_EMPTY_LVL only |
| SpiSimple.SetRxAlmFullThreshold | drivers/spi_simple/src/spi_simple.c:210-213 | Writes threshold, unmodified, to RX_ALM_FULL_LVL only |

## Left out

- Real memory-mapped I/O through the platform's `Xil_In32`/`Xil_Out32` is not modelled, nor its volatility and ordering guarantees. `xil_io.h` is not part of this model. The `Device` object is a simulated register file with an access log.
- `baseAddr`: the address sum `baseAddr + offset` is not modelled. The `Device` argument stands for the register window at that base address.
- Termination of the polling loops holds only in the simulation, where each STATUS read completes one queued transfer. On real hardware the loops wait for the core and may wait forever.
- Hardware-side rules are simulation choices, not promises of the driver:
  - transfers complete only at STATUS reads, exactly one per read (the oldest queued), and never at any other access. Which FIFO state each call sees depends on this timing rule;
  - SLAVE_NR and STORE_RX are captured into each transfer when DATA is written (`Transfer`). A later write to either register does not affect transfers already queued, and the FIFO order law depends on this;
  - a DATA write to a full TX FIFO is dropped;
  - a DATA read of an empty RX FIFO returns 0;
  - the almost-empty bit is set when the TX FIFO holds fewer entries than the threshold;
  - the almost-full bit is set when the RX FIFO holds at least the threshold;
  - only TF_DONE, TX_EMPTY and RX_FULL are ever latched into the IRQ vector;
  - an interrupt line driven by the enable mask is not modelled;
  - a reply that arrives at a full RX FIFO is dropped;
  - a slave's reply is a fixed function of the slave number and the word sent (`Core.slaveReply`);
  - BUSY is set exactly while the TX FIFO holds a transfer, so TX_EMPTY and BUSY are never set together.
- Concurrent callers sharing one core are not modelled. With a single caller, the error branches that the blocking calls pass on cannot be reached in the simulation: TxFifoFull from the non-blocking TX, TX/RX full from the non-blocking RX/TX, and RxFifoEmpty from the RX read. The branches are kept in the methods, and the contracts state that they are not taken.
- SpiSimple.TxBlocking: the contract gives the writes in order, says every read is a STATUS read, and names the final access. It does not say how many STATUS polls fall between the writes, because that depends on the core's timing.
- SpiSimple.RxTxBlocking: as for TxBlocking, the contract does not say how many STATUS polls fall between the writes. It does pin down the wait before the reply is read: a STATUS read showing BUSY clear comes after the DATA write and just before the final RX-empty check and DATA read.
- SpiSimple.GetRxFifoLevel: the level is stated as the FIFO length taken as a 32-bit word. That no truncation happens (depths are below 2^32) is a bound of the simulated core, not a proved property of the value read.
- SpiSimple.GetTxFifoLevel: same as GetRxFifoLevel.
- The `extern "C"` and `#pragma once` scaffolding is not modelled. The C `bool` conversion is modelled only as "the masked bit is non-zero".
