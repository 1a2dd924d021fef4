/** The UART Lite device behind its four registers. */
module UartDeviceModel {
  import opened UartRegisters
  import opened UartLine

  class UartDevice {
    var tx: seq<Byte>
    var rx: seq<Byte>
    var intr: bool

    ghost var wire: seq<Byte>
    ghost var pushed: seq<Byte>
    ghost var accepted: seq<Byte>
    ghost var popped: seq<Byte>
    ghost var errs: seq<Errors>
    ghost var refused: nat
    ghost var cuts: (nat, nat, nat, nat)

    /** The error bits of the last status word read. */
    ghost var lastErrors: Errors

    /** Every register access so far. */
    ghost var log: seq<Access>

    ghost function State(): Line
      reads this
    {
      Line(tx, rx, intr, wire, pushed, accepted, popped, errs, refused, cuts.0, cuts.1, cuts.2, cuts.3)
    }

    ghost predicate Valid()
      reads this
    {
      LineInv(State())
    }

    /** Power-up. */
    constructor ()
      ensures Valid() && !intr && tx == [] && rx == [] && refused == 0 && log == []
    {
      tx, rx, intr := [], [], false;
      wire, pushed, accepted, popped, errs := [], [], [], [], [];
      refused, cuts := 0, (0, 0, 0, 0);
      lastErrors, log := Errors(false, false, false), [];
    }

    /** Time passes: any number of bytes leave on the wire and any number arrive, in any interleaving. */
    method Settle()
      requires Valid()
      modifies this
      ensures Valid() && Quiet(old(State()), State()) && lastErrors == old(lastErrors) && log == old(log)
    {
      var steps: nat := *;
      HardwareIsQuiet(State(), 0);
      while steps > 0
        invariant Valid() && Quiet(old(State()), State()) && lastErrors == old(lastErrors) && log == old(log)
      {
        ghost var before := State();
        var sends: bool, b: Byte := *, *;
        HardwareIsQuiet(before, b);
        if sends && tx != [] {
          wire, tx := wire + [tx[0]], tx[1..];
          assert State() == Drained(before);
        } else if |rx| < FIFO_SIZE {
          accepted, rx := accepted + [b], rx + [b];
          assert State() == Arrived(before, b);
        }
        ExchangeChains(old(State()), before, State(), [], [], [], []);
        ExchangeKeepsInv(before, State(), [], []);
        steps := steps - 1;
      }
    }

    /** Status register read. The error bits are whatever the receiver has latched. */
    method ReadStatus() returns (w: Byte)
      requires Valid()
      modifies this
      ensures Valid() && Quiet(old(State()), State()) && log == old(log) + [ReadsStatus]
      ensures w == StatusWord(Status(lastErrors, intr, |tx| == FIFO_SIZE, tx == [], |rx| == FIFO_SIZE, rx != []))
    {
      Settle();
      var overrun: bool, parity: bool, framing: bool := *, *, *;
      lastErrors, log := Errors(overrun, parity, framing), log + [ReadsStatus];
      w := StatusWord(Status(Errors(overrun, parity, framing), intr,
                             |tx| == FIFO_SIZE, tx == [], |rx| == FIFO_SIZE, rx != []));
    }

    /** Transmit FIFO write: a full FIFO refuses it. */
    method WriteTx(b: Byte)
      requires Valid()
      modifies this
      ensures Valid() && log == old(log) + [WritesData(b)]
      ensures exists m :: Quiet(old(State()), m) && State() == PutTx(m, b)
      ensures old(|tx|) < FIFO_SIZE ==> Exchange(old(State()), State(), [b], []) && intr == old(intr)
    {
      Settle();
      ghost var m := State();
      log := log + [WritesData(b)];
      if |tx| < FIFO_SIZE {
        tx, pushed := tx + [b], pushed + [b];
      } else {
        refused := refused + 1;
      }
      assert State() == PutTx(m, b);
      AccessTransfers(m, b, lastErrors);
      if |m.tx| < FIFO_SIZE {
        ExchangeKeepsInv(m, State(), [b], []);
        ExchangeChains(old(State()), m, State(), [], [], [b], []);
        ghost var none: seq<Byte> := [];
        assert none + [b] == [b] && none + none == none;
      } else {
        assert |m.wire| + |m.tx| == |old(wire)| + |old(tx)|;
      }
    }

    /** Receive FIFO read: an empty FIFO refuses it. The byte is charged with the last status word's errors. */
    method ReadRx() returns (b: Byte)
      requires Valid()
      modifies this
      ensures Valid() && lastErrors == old(lastErrors) && log == old(log) + [ReadsData]
      ensures exists m :: Quiet(old(State()), m) && State() == TakeRx(m, lastErrors) && (m.rx != [] ==> b == m.rx[0])
      ensures old(rx) != [] ==>
                && Exchange(old(State()), State(), [], [b]) && intr == old(intr)
                && errs == old(errs) + [lastErrors]
    {
      Settle();
      ghost var m := State();
      log := log + [ReadsData];
      if rx != [] {
        b := rx[0];
        popped, errs, rx := popped + [b], errs + [lastErrors], rx[1..];
        AccessTransfers(m, 0, lastErrors);
        ExchangeKeepsInv(m, State(), [], [b]);
        ExchangeChains(old(State()), m, State(), [], [], [], [b]);
        ghost var none: seq<Byte> := [];
        assert none + [b] == [b] && none + none == none;
      } else {
        b := *;
        refused := refused + 1;
      }
      assert State() == TakeRx(m, lastErrors);
    }

    /** Control register write. */
    method WriteControl(w: Byte)
      requires Valid()
      modifies this
      ensures Valid() && log == old(log) + [WritesControl(w)]
      ensures exists m :: Quiet(old(State()), m) && State() == Controlled(m, Decode(w))
      ensures !Decode(w).resetTx && !Decode(w).resetRx ==> Exchange(old(State()), State(), [], [])
    {
      Settle();
      ghost var m := State();
      log := log + [WritesControl(w)];
      var c := Decode(w);
      intr := c.enable;
      if c.resetTx {
        tx, cuts := [], (|wire|, |pushed|, cuts.2, cuts.3);
      }
      if c.resetRx {
        rx, cuts := [], (cuts.0, cuts.1, |accepted|, |popped|);
      }
      assert State() == Controlled(m, c);
    }
  }
}
