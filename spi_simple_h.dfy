// The definitions of the SPI-simple driver header: return codes, the register
// map of the core and the bit layout of its STATUS and IRQ registers.

module SpiSimpleH {

  /** The return codes of the access functions. */
  datatype ErrCode = Success | TxFifoFull | RxFifoFull | RxFifoNotEmpty | RxFifoEmpty

  /** The numeric value of each return code: zero on success, a distinct negative value otherwise. */
  function Code(e: ErrCode): (c: int)
    ensures c == 0 <==> e == Success
    ensures -4 <= c <= 0
  {
    match e
    case Success => 0
    case TxFifoFull => -1
    case RxFifoFull => -2
    case RxFifoNotEmpty => -3
    case RxFifoEmpty => -4
  }

  /** Different return codes have different numeric values. */
  lemma CodeInjective(a: ErrCode, b: ErrCode)
    requires Code(a) == Code(b)
    ensures a == b
  {
  }

  // Register byte offsets from the base address of the core.
  const REG_DATA: bv32 := 0x00
  const REG_STATUS: bv32 := 0x04
  const REG_RX_LEVEL: bv32 := 0x08
  const REG_TX_LEVEL: bv32 := 0x0C
  const REG_SLAVE_NR: bv32 := 0x10
  const REG_STORE_RX: bv32 := 0x14
  const REG_TX_ALM_EMPTY_LVL: bv32 := 0x18
  const REG_RX_ALM_FULL_LVL: bv32 := 0x1C
  const REG_IRQ_VEC: bv32 := 0x20
  const REG_IRQ_ENA: bv32 := 0x24

  /** The ten registers, in the order the header lists them. */
  const REGISTERS: seq<bv32> := [REG_DATA, REG_STATUS, REG_RX_LEVEL, REG_TX_LEVEL, REG_SLAVE_NR,
                                 REG_STORE_RX, REG_TX_ALM_EMPTY_LVL, REG_RX_ALM_FULL_LVL,
                                 REG_IRQ_VEC, REG_IRQ_ENA]

  /** Every register has its own word-aligned offset inside a 40-byte window. */
  lemma RegisterMapWellFormed()
    ensures |REGISTERS| == 10
    ensures forall i, j :: 0 <= i < j < |REGISTERS| ==> REGISTERS[i] != REGISTERS[j]
    ensures forall i :: 0 <= i < |REGISTERS| ==> REGISTERS[i] % 4 == 0 && REGISTERS[i] <= 0x24
  {
  }

  // STATUS register bit masks.
  const STATUS_TX_EMPTY: bv32 := 1 << 0
  const STATUS_TX_FULL: bv32 := 1 << 1
  const STATUS_TX_ALM_EMPTY: bv32 := 1 << 2
  const STATUS_RX_EMPTY: bv32 := 1 << 3
  const STATUS_RX_FULL: bv32 := 1 << 4
  const STATUS_RX_ALM_FULL: bv32 := 1 << 5
  const STATUS_BUSY: bv32 := 1 << 6

  /** The STATUS masks, in bit order. */
  const STATUS_MASKS: seq<bv32> := [STATUS_TX_EMPTY, STATUS_TX_FULL, STATUS_TX_ALM_EMPTY,
                                    STATUS_RX_EMPTY, STATUS_RX_FULL, STATUS_RX_ALM_FULL, STATUS_BUSY]

  // IRQ vector and IRQ enable bit masks.
  const IRQ_TX_EMPTY: bv32 := 1 << 0
  const IRQ_TX_ALM_EMPTY: bv32 := 1 << 1
  const IRQ_TF_DONE: bv32 := 1 << 2
  const IRQ_RX_FULL: bv32 := 1 << 3
  const IRQ_RX_ALM_FULL: bv32 := 1 << 4

  /** The IRQ masks, in bit order. */
  const IRQ_MASKS: seq<bv32> := [IRQ_TX_EMPTY, IRQ_TX_ALM_EMPTY, IRQ_TF_DONE, IRQ_RX_FULL, IRQ_RX_ALM_FULL]

  /** Bit k of a register value is set. */
  predicate BitSet(w: bv32, k: nat)
    requires k < 32
  {
    w & (1 << k) != 0
  }

  /** A mask that selects exactly bit k. */
  predicate SelectsOnly(m: bv32, k: nat)
    requires k < 32
  {
    forall j: nat :: j < 32 ==> (BitSet(m, j) <==> j == k)
  }

  /** Each STATUS mask selects exactly its own bit, 0 through 6, so the masks are
      pairwise disjoint and every flag decodes independently of the others. */
  lemma StatusMasksAreSingleBits()
    ensures |STATUS_MASKS| == 7
    ensures forall k :: 0 <= k < 7 ==> SelectsOnly(STATUS_MASKS[k], k)
    ensures forall i, j :: 0 <= i < j < 7 ==> STATUS_MASKS[i] & STATUS_MASKS[j] == 0
  {
    forall k | 0 <= k < 7 ensures SelectsOnly(STATUS_MASKS[k], k) {
      ShiftSelectsOnly(k);
    }
  }

  /** Each IRQ mask selects exactly its own bit, 0 through 4, and the masks are pairwise disjoint. */
  lemma IrqMasksAreSingleBits()
    ensures |IRQ_MASKS| == 5
    ensures forall k :: 0 <= k < 5 ==> SelectsOnly(IRQ_MASKS[k], k)
    ensures forall i, j :: 0 <= i < j < 5 ==> IRQ_MASKS[i] & IRQ_MASKS[j] == 0
  {
    forall k | 0 <= k < 5 ensures SelectsOnly(IRQ_MASKS[k], k) {
      ShiftSelectsOnly(k);
    }
  }

  /** 1 << k has bit k set and no other bit. */
  lemma ShiftSelectsOnly(k: nat)
    requires k < 32
    ensures SelectsOnly(1 << k, k)
  {
  }
}
