/** The register map of the UART Lite device: the bits of its status and control registers. */
module UartRegisters {

  type Byte = bv8

  const SR_PARITY_ERROR: Byte := 0x80
  const SR_FRAMING_ERROR: Byte := 0x40
  const SR_OVERRUN_ERROR: Byte := 0x20
  const SR_INTR_ENABLED: Byte := 0x10
  const SR_TX_FIFO_FULL: Byte := 0x08
  const SR_TX_FIFO_EMPTY: Byte := 0x04
  const SR_RX_FIFO_FULL: Byte := 0x02
  const SR_RX_FIFO_VALID_DATA: Byte := 0x01

  const CR_ENABLE_INTR: Byte := 0x10
  const CR_FIFO_RX_RESET: Byte := 0x02
  const CR_FIFO_TX_RESET: Byte := 0x01

  /** Transmit and receive FIFO depth. */
  const FIFO_SIZE: nat := 16

  /** The three error bits a received byte is charged with. */
  datatype Errors = Errors(overrun: bool, parity: bool, framing: bool)

  /** Everything the status register reports. */
  datatype Status = Status(errors: Errors, intr: bool, txFull: bool, txEmpty: bool, rxFull: bool, rxValid: bool)

  /** A register access as the device sees it. */
  datatype Access = ReadsStatus | ReadsData | WritesData(b: Byte) | WritesControl(w: Byte)

  predicate Test(word: Byte, mask: Byte) {
    word & mask != 0
  }

  function Bit(on: bool, mask: Byte): Byte {
    if on then mask else 0
  }

  /** The status register as the device drives it onto the bus; every mask recovers its own flag. */
  function StatusWord(s: Status): (w: Byte)
    ensures Test(w, SR_PARITY_ERROR) <==> s.errors.parity
    ensures Test(w, SR_FRAMING_ERROR) <==> s.errors.framing
    ensures Test(w, SR_OVERRUN_ERROR) <==> s.errors.overrun
    ensures Test(w, SR_INTR_ENABLED) <==> s.intr
    ensures Test(w, SR_TX_FIFO_FULL) <==> s.txFull
    ensures Test(w, SR_TX_FIFO_EMPTY) <==> s.txEmpty
    ensures Test(w, SR_RX_FIFO_FULL) <==> s.rxFull
    ensures Test(w, SR_RX_FIFO_VALID_DATA) <==> s.rxValid
    ensures (Test(w, 0x80) <==> s.errors.parity) && (Test(w, 0x40) <==> s.errors.framing)
    ensures (Test(w, 0x20) <==> s.errors.overrun) && (Test(w, 0x10) <==> s.intr)
    ensures (Test(w, 0x08) <==> s.txFull) && (Test(w, 0x04) <==> s.txEmpty)
    ensures (Test(w, 0x02) <==> s.rxFull) && (Test(w, 0x01) <==> s.rxValid)
  {
    Bit(s.errors.parity, SR_PARITY_ERROR) | Bit(s.errors.framing, SR_FRAMING_ERROR)
    | Bit(s.errors.overrun, SR_OVERRUN_ERROR) | Bit(s.intr, SR_INTR_ENABLED)
    | Bit(s.txFull, SR_TX_FIFO_FULL) | Bit(s.txEmpty, SR_TX_FIFO_EMPTY)
    | Bit(s.rxFull, SR_RX_FIFO_FULL) | Bit(s.rxValid, SR_RX_FIFO_VALID_DATA)
  }

  /** What a control-register write asks for. */
  datatype Control = Control(enable: bool, resetTx: bool, resetRx: bool)

  function Decode(w: Byte): Control {
    Control(Test(w, CR_ENABLE_INTR), Test(w, CR_FIFO_TX_RESET), Test(w, CR_FIFO_RX_RESET))
  }

  /** The critical-section idiom: a status word masked with the enable bit and written back to the
      control register restores interrupt enabling and resets neither FIFO; with both reset bits added
      it still preserves the enable bit. Writing zero disables interrupts and resets nothing. */
  lemma MaskedStatusRestoresEnable(s: Status)
    ensures StatusWord(s) & CR_ENABLE_INTR == Bit(s.intr, CR_ENABLE_INTR)
    ensures Decode(StatusWord(s) & CR_ENABLE_INTR) == Control(s.intr, false, false)
    ensures Decode((StatusWord(s) & SR_INTR_ENABLED) | CR_FIFO_TX_RESET | CR_FIFO_RX_RESET)
            == Control(s.intr, true, true)
    ensures Decode(0) == Control(false, false, false) && Decode(0x10) == Control(true, false, false)
    ensures Decode(0x01) == Control(false, true, false) && Decode(0x02) == Control(false, false, true)
  {
    var w := StatusWord(s);
    assert Test(w, SR_INTR_ENABLED) <==> s.intr;
    assert Test(w & 0x10, 0x10) <==> Test(w, 0x10);
    assert Test((w & 0x10) | 0x01 | 0x02, 0x10) <==> Test(w, 0x10);
    assert !Test(w & 0x10, 0x01) && !Test(w & 0x10, 0x02);
  }
}
