/** The hardware side of one UART Lite: its two FIFOs and the history of the bytes that crossed them. */
module UartLine {
  import opened UartRegisters

  /**
   * tx and rx are the FIFOs. The other sequences only grow: what left on the wire, what the driver pushed
   * into tx, what rx accepted from the wire, what the driver popped from rx, and the error bits of the
   * status word read before each pop. refused counts driver accesses the device could not serve (a write
   * to a full FIFO or a read of an empty one). The cuts say how much of each history preceded the last
   * FIFO reset.
   */
  datatype Line = Line(
    tx: seq<Byte>, rx: seq<Byte>, intr: bool,
    wire: seq<Byte>, pushed: seq<Byte>, accepted: seq<Byte>, popped: seq<Byte>, errs: seq<Errors>,
    refused: nat, wireCut: nat, txCut: nat, rxCut: nat, popCut: nat)

  predicate LineInv(l: Line) {
    && |l.tx| <= FIFO_SIZE && |l.rx| <= FIFO_SIZE
    && |l.errs| == |l.popped|
    && l.wireCut <= |l.wire| && l.txCut <= |l.pushed|
    && l.rxCut <= |l.accepted| && l.popCut <= |l.popped|
    && l.pushed[l.txCut..] == l.wire[l.wireCut..] + l.tx
    && l.accepted[l.rxCut..] == l.popped[l.popCut..] + l.rx
  }

  // ---- What the hardware does on its own ----

  function Drained(l: Line): Line
    requires l.tx != []
  {
    l.(wire := l.wire + [l.tx[0]], tx := l.tx[1..])
  }

  /** A byte completes on the receive side; a full FIFO drops it. */
  function Arrived(l: Line, b: Byte): Line {
    if |l.rx| < FIFO_SIZE then l.(accepted := l.accepted + [b], rx := l.rx + [b]) else l
  }

  // ---- What a driver access does ----

  function PutTx(l: Line, b: Byte): Line {
    if |l.tx| < FIFO_SIZE then l.(tx := l.tx + [b], pushed := l.pushed + [b]) else l.(refused := l.refused + 1)
  }

  function TakeRx(l: Line, e: Errors): Line {
    if l.rx != []
    then l.(popped := l.popped + [l.rx[0]], errs := l.errs + [e], rx := l.rx[1..])
    else l.(refused := l.refused + 1)
  }

  /** A control-register write: the enable bit is set as asked, and each FIFO whose reset bit is set loses its
      contents. */
  function Controlled(l: Line, c: Control): Line {
    var t := if c.resetTx then l.(tx := [], wireCut := |l.wire|, txCut := |l.pushed|) else l;
    var r := if c.resetRx then t.(rx := [], rxCut := |l.accepted|, popCut := |l.popped|) else t;
    r.(intr := c.enable)
  }

  /** Both FIFO-reset bits written, the enable bit kept: the contents are gone, the histories stay. */
  function Cleared(l: Line): Line {
    Controlled(l, Control(l.intr, true, true))
  }

  /**
   * From l to m the driver pushed exactly `out` and popped exactly `into`, in order, with any hardware
   * activity interleaved: every byte of tx and `out` is on the wire or still queued, in order, and the
   * popped bytes followed by rx are the old rx followed by the new arrivals. Nothing is lost, refused or
   * reset. The interrupt-enable bit is not constrained here.
   */
  predicate Exchange(l: Line, m: Line, out: seq<Byte>, into: seq<Byte>) {
    && l.wire <= m.wire && m.wire + m.tx == l.wire + l.tx + out
    && m.pushed == l.pushed + out
    && l.accepted <= m.accepted && into + m.rx == l.rx + m.accepted[|l.accepted|..]
    && m.popped == l.popped + into
    && l.errs <= m.errs && |m.errs| == |l.errs| + |into|
    && |m.tx| <= FIFO_SIZE && |m.rx| <= FIFO_SIZE
    && m.refused == l.refused
    && m.wireCut == l.wireCut && m.txCut == l.txCut && m.rxCut == l.rxCut && m.popCut == l.popCut
  }

  /** Only hardware activity. */
  predicate Quiet(l: Line, m: Line) {
    Exchange(l, m, [], []) && m.intr == l.intr
  }

  lemma ExchangeChains(l: Line, m: Line, n: Line, out1: seq<Byte>, in1: seq<Byte>, out2: seq<Byte>, in2: seq<Byte>)
    requires Exchange(l, m, out1, in1) && Exchange(m, n, out2, in2)
    ensures Exchange(l, n, out1 + out2, in1 + in2)
  {
    assert n.wire + n.tx == l.wire + l.tx + (out1 + out2);
    var arrivals1, arrivals2 := m.accepted[|l.accepted|..], n.accepted[|m.accepted|..];
    assert n.accepted[|l.accepted|..] == arrivals1 + arrivals2;
    calc {
      (in1 + in2) + n.rx;
      in1 + (in2 + n.rx);
      in1 + (m.rx + arrivals2);
      (in1 + m.rx) + arrivals2;
      (l.rx + arrivals1) + arrivals2;
      l.rx + (arrivals1 + arrivals2);
    }
    assert l.errs <= n.errs;
  }

  lemma HardwareIsQuiet(l: Line, b: Byte)
    requires LineInv(l)
    ensures Quiet(l, l) && Quiet(l, Arrived(l, b))
    ensures l.tx != [] ==> Quiet(l, Drained(l))
  {
    if l.tx != [] {
      assert l.tx == [l.tx[0]] + l.tx[1..];
    }
  }

  /** A driver access that the status register has just allowed transfers its byte. */
  lemma AccessTransfers(l: Line, b: Byte, e: Errors)
    requires LineInv(l)
    ensures |l.tx| < FIFO_SIZE ==> Exchange(l, PutTx(l, b), [b], [])
    ensures l.rx != [] ==> Exchange(l, TakeRx(l, e), [], [l.rx[0]])
  {
  }

  lemma ExchangeKeepsInv(l: Line, m: Line, out: seq<Byte>, into: seq<Byte>)
    requires LineInv(l) && Exchange(l, m, out, into)
    ensures LineInv(m)
  {
    var sofar := l.wire + l.tx;
    assert (m.wire + m.tx)[l.wireCut..] == m.wire[l.wireCut..] + m.tx;
    assert (sofar + out)[l.wireCut..] == sofar[l.wireCut..] + out;
    assert sofar[l.wireCut..] == l.wire[l.wireCut..] + l.tx;
    assert m.pushed[l.txCut..] == l.pushed[l.txCut..] + out;
    var arrivals := m.accepted[|l.accepted|..];
    calc {
      m.accepted[l.rxCut..];
      l.accepted[l.rxCut..] + arrivals;
      (l.popped[l.popCut..] + l.rx) + arrivals;
      l.popped[l.popCut..] + (l.rx + arrivals);
      l.popped[l.popCut..] + (into + m.rx);
      (l.popped[l.popCut..] + into) + m.rx;
      m.popped[l.popCut..] + m.rx;
    }
  }
}
