/** The XUartLite driver instance: polled and interrupt-driven sending and receiving through the FIFOs. */
module UartDriver {
  import opened UartRegisters
  import opened UartLine
  import opened UartSpec
  import opened Basics
  import opened UartInvariants
  import opened UartDeviceModel

  /** The Stats structure: 32-bit counters. */
  function Reduced(c: Counts): Counts {
    Counts(c.txIntr % U32_RANGE, c.rxIntr % U32_RANGE, c.charsTx % U32_RANGE, c.charsRx % U32_RANGE,
           c.overrun % U32_RANGE, c.parity % U32_RANGE, c.framing % U32_RANGE)
  }

  // The register accesses each call makes, in order.

  /** A critical region: sample the status, interrupts off, and back to what they were. */
  function CriticalLog(on: bool): seq<Access> {
    [ReadsStatus, WritesControl(0), WritesControl(Bit(on, CR_ENABLE_INTR))]
  }

  /** Each byte written is followed by one look at the status. */
  function PushLog(out: seq<Byte>): seq<Access> {
    if out == [] then [] else PushLog(Front(out)) + [WritesData(Last(out)), ReadsStatus]
  }

  /** Each byte read is preceded by one. */
  function PopLog(n: nat): seq<Access> {
    if n == 0 then [] else PopLog(n - 1) + [ReadsStatus, ReadsData]
  }

  function FillLog(out: seq<Byte>): seq<Access> { [ReadsStatus] + PushLog(out) }

  function DrainLog(n: nat, want: nat): seq<Access> { PopLog(n) + (if n < want then [ReadsStatus] else []) }

  function SendLog(out: seq<Byte>, on: bool): seq<Access> { FillLog(out) + CriticalLog(on) }

  function RecvLog(n: nat, want: nat, on: bool): seq<Access> { DrainLog(n, want) + CriticalLog(on) }

  function ResetLog(on: bool): seq<Access> {
    [ReadsStatus, WritesControl(Bit(on, CR_ENABLE_INTR) | CR_FIFO_TX_RESET | CR_FIFO_RX_RESET)]
  }

  lemma PushLogStep(log: seq<Access>, rest: seq<Byte>, k: nat)
    requires k < |rest|
    ensures log + FillLog(rest[..k]) + [WritesData(rest[k]), ReadsStatus] == log + FillLog(rest[..k + 1])
  {
    assert Front(rest[..k + 1]) == rest[..k];
  }

  lemma PopLogStep(log: seq<Access>, n: nat)
    ensures log + PopLog(n) + [ReadsStatus, ReadsData] == log + PopLog(n + 1)
  {
  }

  lemma QuietExtends(l: Line, m: Line, n: Line, out: seq<Byte>, into: seq<Byte>)
    requires Exchange(l, m, out, into) && Exchange(m, n, [], [])
    ensures Exchange(l, n, out, into)
  {
    ExchangeChains(l, m, n, out, into, [], []);
    assert out + [] == out && into + [] == into;
  }

  /** XUartLite_mUpdateStats on 32-bit counters. */
  function Bumped(c: Counts, e: Errors): Counts {
    c.(overrun := if e.overrun then (c.overrun + 1) % U32_RANGE else c.overrun,
       parity := if e.parity then (c.parity + 1) % U32_RANGE else c.parity,
       framing := if e.framing then (c.framing + 1) % U32_RANGE else c.framing)
  }

  /** The counters part-way through a receive loop: the errors are charged, the characters not yet. */
  function ErrorsCharged(c: Counts, errs: seq<Errors>): Counts {
    Charged(c, errs).(charsRx := c.charsRx)
  }

  lemma OneMore(n: nat, errs: seq<Errors>, e: Errors, k: Kind)
    ensures var one, sum := Tally([e], k), n + Tally(errs, k);
            && one <= 1
            && (n + Tally(errs + [e], k)) % U32_RANGE
               == if one == 1 then (sum % U32_RANGE + 1) % U32_RANGE else sum % U32_RANGE
  {
    TallyConcat(errs, [e], k);
    WrapStep(n + Tally(errs, k));
  }

  lemma WrapStep(n: nat)
    ensures (n % U32_RANGE + 1) % U32_RANGE == (n + 1) % U32_RANGE
  {
  }

  lemma ErrorsChargedStep(c: Counts, errs: seq<Errors>, e: Errors)
    ensures Reduced(ErrorsCharged(c, errs + [e])) == Bumped(Reduced(ErrorsCharged(c, errs)), e)
    ensures ErrorsCharged(c, []) == c
  {
    OneMore(c.overrun, errs, e, Overrun);
    OneMore(c.parity, errs, e, Parity);
    OneMore(c.framing, errs, e, Framing);
    assert [e][..0] == [];
  }

  lemma SentCounted(c: Counts, k: nat)
    ensures var s := Reduced(c); s.(charsTx := (s.charsTx + k) % U32_RANGE) == Reduced(c.(charsTx := c.charsTx + k))
  {
  }

  lemma InterruptsCounted(c: Counts)
    ensures var s := Reduced(c);
            && s.(txIntr := (s.txIntr + 1) % U32_RANGE) == Reduced(c.(txIntr := c.txIntr + 1))
            && s.(rxIntr := (s.rxIntr + 1) % U32_RANGE) == Reduced(c.(rxIntr := c.rxIntr + 1))
  {
    WrapStep(c.txIntr);
    WrapStep(c.rxIntr);
  }

  /** `a` with `bytes` written over it from index `at`. */
  function Overlaid(a: seq<Byte>, at: nat, bytes: seq<Byte>): seq<Byte> {
    if at + |bytes| <= |a| then a[..at] + bytes + a[at + |bytes|..] else a
  }

  lemma OverlaidStep(a: seq<Byte>, at: nat, bytes: seq<Byte>, b: Byte)
    requires at + |bytes| < |a|
    ensures Overlaid(a, at, bytes)[at + |bytes| := b] == Overlaid(a, at, bytes + [b])
  {
  }

  lemma CharactersCharged(c: Counts, errs: seq<Errors>)
    ensures var s := Reduced(ErrorsCharged(c, errs));
            s.(charsRx := (s.charsRx + |errs|) % U32_RANGE) == Reduced(Charged(c, errs))
  {
  }

  /** Part-way through a receive loop: `got` has been read since l0 and its errors are in the counters. */
  ghost predicate Draining(l0: Line, c: Counts, got: seq<Byte>, l: Line, stats: Counts) {
    && Moved(l0, l, [], got)
    && |l0.errs| <= |l.errs| && stats == Reduced(ErrorsCharged(c, l.errs[|l0.errs|..]))
  }

  lemma DrainStarts(l: Line, c: Counts)
    requires LineInv(l)
    ensures Draining(l, c, [], l, Reduced(c))
  {
    HardwareIsQuiet(l, 0);
    assert l.errs[|l.errs|..] == [];
  }

  lemma DrainWaits(l0: Line, c: Counts, got: seq<Byte>, l: Line, m: Line, stats: Counts)
    requires Draining(l0, c, got, l, stats) && Quiet(l, m)
    ensures Draining(l0, c, got, m, stats)
  {
    QuietExtends(l0, l, m, [], got);
    assert m.errs == l.errs;
  }

  lemma DrainTakes(l0: Line, c: Counts, got: seq<Byte>, l: Line, m: Line, b: Byte, e: Errors, stats: Counts)
    requires Draining(l0, c, got, l, stats) && Moved(l, m, [], [b]) && m.errs == l.errs + [e]
    ensures Draining(l0, c, got + [b], m, Bumped(stats, e))
  {
    ExchangeChains(l0, l, m, [], got, [], [b]);
    ErrorsChargedStep(c, l.errs[|l0.errs|..], e);
    assert m.errs[|l0.errs|..] == l.errs[|l0.errs|..] + [e];
  }

  lemma DrainStops(l0: Line, c: Counts, got: seq<Byte>, l: Line, stats: Counts, want: nat)
    requires LineInv(l) && Draining(l0, c, got, l, stats) && |got| <= want && (|got| == want || l.rx == [])
    ensures Empties(l0, l, want, got)
  {
    HardwareIsQuiet(l, 0);
    assert |got| != want ==> EmptyAt(l0, l, l, got);
  }

  lemma NothingAfter(log: seq<Access>)
    ensures log + [] == log
  {
  }

  lemma PushExtends(l: Line, m: Line, n: Line, rest: seq<Byte>, k: nat)
    requires k < |rest| && Moved(l, m, rest[..k], []) && Moved(m, n, [rest[k]], [])
    ensures Moved(l, n, rest[..k + 1], [])
  {
    ExchangeChains(l, m, n, rest[..k], [], [rest[k]], []);
    assert rest[..k + 1] == rest[..k] + [rest[k]];
  }

  lemma ImageExtends(r: RecvSession, got: seq<Byte>)
    requires RecvOk(r) && |got| <= Missing(r)
    ensures BufferImage(r.(stored := r.stored + got)) == Overlaid(BufferImage(r), |r.stored|, got)
  {
  }

  lemma SliceAt(buf: seq<Byte>, at: nat, rest: seq<Byte>)
    requires at + |rest| <= |buf| && buf[at..at + |rest|] == rest
    ensures forall i :: 0 <= i < |rest| ==> buf[at + i] == rest[i]
  {
    forall i | 0 <= i < |rest| ensures buf[at + i] == rest[i] {
      assert buf[at..at + |rest|][i] == rest[i];
    }
  }

  lemma SliceOfSlice(buf: seq<Byte>, data: seq<Byte>, at: nat, k: nat)
    requires at + k <= |data| <= |buf| && buf[at..|data|] == data[at..]
    ensures buf[at + k..|data|] == data[at + k..]
  {
    assert buf[at + k..|data|] == buf[at..|data|][k..];
  }

  /** What the loop and the critical region do together. */
  lemma TakenTogether(l: Line, m: Line, n: Line, want: nat, got: seq<Byte>, c: Counts, stats1: Counts, stats2: Counts)
    requires Empties(l, m, want, got) && Moved(m, n, [], [])
    requires stats1 == Reduced(ErrorsCharged(c, m.errs[|l.errs|..]))
    requires stats2 == stats1.(charsRx := (stats1.charsRx + |got|) % U32_RANGE)
    ensures Empties(l, n, want, got) && |l.errs| <= |n.errs| && stats2 == Reduced(Charged(c, n.errs[|l.errs|..]))
  {
    EmptiesThenQuiet(l, m, n, want, got);
    assert n.errs == m.errs;
    CharactersCharged(c, n.errs[|l.errs|..]);
  }

  class XUartLite {
    const device: UartDevice

    // SendBuffer
    var sendBuf: array?<Byte>
    var sendNext: nat
    var sendRequested: nat
    var sendRemaining: nat

    // ReceiveBuffer
    var recvBuf: array?<Byte>
    var recvNext: nat
    var recvRequested: nat
    var recvRemaining: nat

    var stats: Counts

    /** The transition-system state this instance is in. */
    ghost var u: Uart

    /** The instance's fields and its device say what u says. */
    ghost predicate Core()
      reads this, device, sendBuf, recvBuf
    {
      && device.Valid() && u.line == device.State()
      && stats == Reduced(u.counts)
      && SendCore() && RecvCore()
      && (sendRemaining > 0 && recvRemaining > 0 ==> sendBuf != recvBuf)
    }

    /** NextBytePtr's offset plus RemainingBytes is NumBytes, and the unsent bytes are still in the caller's buffer. */
    ghost predicate SendCore()
      reads this, sendBuf
    {
      && u.sends != [] && sendRequested == u.requested
      && var q := Last(u.sends);
         && q.pushed <= |q.data| && sendNext == q.pushed && sendNext + sendRemaining == |q.data|
         && (sendRemaining > 0 ==>
               sendBuf != null && |q.data| <= sendBuf.Length && sendBuf[sendNext..|q.data|] == q.data[sendNext..])
    }

    /** The caller's receive buffer holds the bytes received over what was there before. */
    ghost predicate RecvCore()
      reads this, recvBuf
    {
      && u.recvs != []
      && var r := Last(u.recvs);
         && RecvOk(r) && recvRequested == r.size && recvNext == |r.stored| && recvRemaining == Missing(r)
         && (recvBuf != null ==> recvBuf.Length == |r.before|)
         && (recvRemaining > 0 ==> recvBuf != null && recvBuf[..] == BufferImage(r))
    }

    ghost predicate Valid()
      reads this, device, sendBuf, recvBuf
    {
      Core() && Inv(u)
    }

    /** XUartLite_CfgInitialize: no sessions, interrupts off, FIFOs as found. */
    constructor CfgInitialize(dev: UartDevice)
      requires dev.Valid()
      modifies dev
      ensures Valid() && Init(u) && device == dev && sendBuf == null && recvBuf == null
      ensures Exchange(old(dev.State()), u.line, [], [])
    {
      device := dev;
      sendBuf, sendNext, sendRequested, sendRemaining := null, 0, 0, 0;
      recvBuf, recvNext, recvRequested, recvRemaining := null, 0, 0, 0;
      stats := NO_COUNTS;
      new;
      MaskedStatusRestoresEnable(Status(Errors(false, false, false), false, false, false, false, false));
      device.WriteControl(0);
      var l := device.State();
      u := Uart(l, [SendSession([], 0, |l.pushed|)], 0, [RecvSession([], 0, [])], [], NO_COUNTS,
                |l.pushed|, |l.popped|, |l.pushed|, |l.popped|);
      InitInv(u);
    }

    /** Open a critical region: sample the status register, then turn interrupts off. */
    method EnterCritical() returns (status: Byte)
      requires device.Valid()
      modifies device
      ensures device.Valid() && Exchange(old(device.State()), device.State(), [], []) && !device.intr
      ensures Decode(status & CR_ENABLE_INTR) == Control(old(device.intr), false, false)
      ensures status & CR_ENABLE_INTR == Bit(old(device.intr), CR_ENABLE_INTR)
      ensures device.log == old(device.log) + [ReadsStatus, WritesControl(0)]
    {
      ghost var l := device.State();
      status := device.ReadStatus();
      MaskedStatusRestoresEnable(Status(device.lastErrors, device.intr, |device.tx| == FIFO_SIZE, device.tx == [],
                                        |device.rx| == FIFO_SIZE, device.rx != []));
      ghost var m := device.State();
      device.WriteControl(0);
      QuietExtends(l, m, device.State(), [], []);
    }

    /** Close it: write back the enable bit of the sampled status word. */
    method LeaveCritical(status: Byte)
      requires device.Valid() && !Decode(status & CR_ENABLE_INTR).resetTx && !Decode(status & CR_ENABLE_INTR).resetRx
      modifies device
      ensures device.Valid() && Exchange(old(device.State()), device.State(), [], [])
      ensures device.intr == Decode(status & CR_ENABLE_INTR).enable
      ensures device.log == old(device.log) + [WritesControl(status & CR_ENABLE_INTR)]
    {
      device.WriteControl(status & CR_ENABLE_INTR);
    }

    /** One turn of the copy loop: write a byte, then sample the status register again. */
    method PushByte(b: Byte) returns (status: Byte)
      requires device.Valid() && |device.tx| < FIFO_SIZE
      modifies device
      ensures device.Valid() && Moved(old(device.State()), device.State(), [b], [])
      ensures Test(status, SR_TX_FIFO_FULL) <==> |device.tx| == FIFO_SIZE
      ensures device.log == old(device.log) + [WritesData(b), ReadsStatus]
    {
      ghost var l := device.State();
      device.WriteTx(b);
      ghost var m := device.State();
      status := device.ReadStatus();
      QuietExtends(l, m, device.State(), [b], []);
    }

    /** The same after `sent` turns, in terms of the unsent bytes and the register accesses before the loop. */
    method PushNext(sent: nat, ghost l0: Line, ghost rest: seq<Byte>, ghost log0: seq<Access>) returns (status: Byte)
      requires device.Valid() && |device.tx| < FIFO_SIZE && sent < |rest| && Moved(l0, device.State(), rest[..sent], [])
      requires sendBuf != null && sendNext + sent < sendBuf.Length && sendBuf[sendNext + sent] == rest[sent]
      requires device.log == log0 + FillLog(rest[..sent])
      modifies device
      ensures device.Valid() && Moved(l0, device.State(), rest[..sent + 1], [])
      ensures Test(status, SR_TX_FIFO_FULL) <==> |device.tx| == FIFO_SIZE
      ensures device.log == log0 + FillLog(rest[..sent + 1])
    {
      ghost var l1 := device.State();
      status := PushByte(sendBuf[sendNext + sent]);
      PushExtends(l0, l1, device.State(), rest, sent);
      PushLogStep(log0, rest, sent);
    }

    /** The copy loop of XUartLite_SendBuffer. */
    method FillFifo() returns (sent: nat)
      requires Core()
      modifies device
      ensures device.Valid()
      ensures var q := Last(u.sends);
              && Fills(old(device.State()), device.State(), q.data[q.pushed..], sent)
              && device.log == old(device.log) + FillLog(q.data[q.pushed..][..sent])
    {
      ghost var l0, log0 := u.line, device.log;
      ghost var rest := Last(u.sends).data[sendNext..];
      if sendRemaining > 0 {
        SliceAt(sendBuf[..], sendNext, rest);
      }
      sent := 0;
      var status := device.ReadStatus();
      assert FillLog(rest[..0]) == [ReadsStatus];
      while !Test(status, SR_TX_FIFO_FULL) && sent < sendRemaining
        modifies device
        invariant sent <= sendRemaining == |rest|
        invariant device.Valid() && Moved(l0, device.State(), rest[..sent], [])
        invariant Test(status, SR_TX_FIFO_FULL) <==> |device.tx| == FIFO_SIZE
        invariant device.log == log0 + FillLog(rest[..sent])
      {
        status := PushNext(sent, l0, rest, log0);
        sent := sent + 1;
      }
      HardwareIsQuiet(device.State(), 0);
      assert sent != |rest| ==> FullAt(l0, device.State(), device.State(), rest[..sent]);
    }

    /** The critical region that ends XUartLite_SendBuffer: the driver's record of a batch of pushed bytes. */
    method AdvanceSend(sent: nat)
      requires device.Valid() && sent <= sendRemaining
      modifies this`sendNext, this`sendRemaining, this`stats, device
      ensures device.Valid() && Moved(old(device.State()), device.State(), [], [])
      ensures sendNext == old(sendNext) + sent && sendRemaining == old(sendRemaining) - sent
      ensures stats == old(stats).(charsTx := (old(stats).charsTx + sent) % U32_RANGE)
      ensures device.log == old(device.log) + CriticalLog(old(device.intr))
    {
      ghost var l := device.State();
      var status := EnterCritical();
      ghost var m := device.State();
      sendNext := sendNext + sent;
      sendRemaining := sendRemaining - sent;
      stats := stats.(charsTx := (stats.charsTx + sent) % U32_RANGE);
      LeaveCritical(status);
      QuietExtends(l, m, device.State(), [], []);
    }

    /** The loop and the critical region after it. */
    method PushAll() returns (sent: nat)
      requires Core()
      modifies this`sendNext, this`sendRemaining, this`stats, device
      ensures device.Valid() && sendNext == old(sendNext) + sent && sendRemaining == old(sendRemaining) - sent
      ensures stats == old(stats).(charsTx := (old(stats).charsTx + sent) % U32_RANGE)
      ensures var q := Last(u.sends);
              && Fills(u.line, device.State(), q.data[q.pushed..], sent)
              && device.log == old(device.log) + SendLog(q.data[q.pushed..][..sent], old(device.intr))
              && (sendRemaining > 0 ==> sendBuf[sendNext..|q.data|] == q.data[sendNext..])
    {
      ghost var q := Last(u.sends);
      sent := FillFifo();
      ghost var l1 := device.State();
      AdvanceSend(sent);
      FillsThenQuiet(u.line, l1, device.State(), q.data[q.pushed..], sent);
      Associates(old(device.log), FillLog(q.data[q.pushed..][..sent]), CriticalLog(l1.intr));
      if sendRemaining > 0 {
        SliceOfSlice(sendBuf[..], q.data, q.pushed, sent);
      }
    }

    /** XUartLite_SendBuffer. */
    method SendBuffer() returns (sent: nat)
      requires Core()
      modifies this, device
      ensures Core() && recvRemaining == old(recvRemaining) && recvBuf == old(recvBuf) && sendBuf == old(sendBuf)
      ensures stats == old(stats).(charsTx := (old(stats).charsTx + sent) % U32_RANGE)
      ensures var q := Last(old(u).sends);
              && Fills(old(u).line, u.line, q.data[q.pushed..], sent)
              && u == old(u).(
                   line := u.line,
                   sends := SetLast(old(u).sends, q.(pushed := q.pushed + sent)),
                   counts := old(u).counts.(charsTx := old(u).counts.charsTx + sent))
              && device.log == old(device.log) + SendLog(q.data[q.pushed..][..sent], old(device.intr))
    {
      ghost var q := Last(u.sends);
      sent := PushAll();
      SentCounted(u.counts, sent);
      u := u.(line := device.State(),
              sends := SetLast(u.sends, q.(pushed := q.pushed + sent)),
              counts := u.counts.(charsTx := u.counts.charsTx + sent));
    }

    // ---- Receiving ----

    method UpdateStats(status: Byte)
      modifies this`stats
      ensures stats == Bumped(old(stats), Errors(Test(status, SR_OVERRUN_ERROR), Test(status, SR_PARITY_ERROR),
                                                 Test(status, SR_FRAMING_ERROR)))
      ensures Test(status, SR_OVERRUN_ERROR) ==> stats.overrun == (old(stats).overrun + 1) % U32_RANGE
      ensures Test(status, SR_PARITY_ERROR) ==> stats.parity == (old(stats).parity + 1) % U32_RANGE
      ensures Test(status, SR_FRAMING_ERROR) ==> stats.framing == (old(stats).framing + 1) % U32_RANGE
    {
      if Test(status, SR_OVERRUN_ERROR) {
        stats := stats.(overrun := (stats.overrun + 1) % U32_RANGE);
      }
      if Test(status, SR_PARITY_ERROR) {
        stats := stats.(parity := (stats.parity + 1) % U32_RANGE);
      }
      if Test(status, SR_FRAMING_ERROR) {
        stats := stats.(framing := (stats.framing + 1) % U32_RANGE);
      }
    }

    /** One byte of the receive loop: read it, store it, charge it with the errors of the status word. */
    method TakeByte(status: Byte, slot: nat) returns (ghost b: Byte)
      requires device.Valid() && device.rx != [] && recvBuf != null && slot < recvBuf.Length
      requires Test(status, SR_OVERRUN_ERROR) == device.lastErrors.overrun
      requires Test(status, SR_PARITY_ERROR) == device.lastErrors.parity
      requires Test(status, SR_FRAMING_ERROR) == device.lastErrors.framing
      modifies this`stats, device, recvBuf
      ensures device.Valid() && Moved(old(device.State()), device.State(), [], [b])
      ensures device.errs == old(device.errs) + [old(device.lastErrors)]
      ensures stats == Bumped(old(stats), old(device.lastErrors))
      ensures recvBuf[..] == old(recvBuf[..])[slot := b]
      ensures device.log == old(device.log) + [ReadsData]
    {
      var data := device.ReadRx();
      recvBuf[slot] := data;
      UpdateStats(status);
      b := data;
    }

    /** One turn of the receive loop, `got` having been read since l0: stop if the FIFO is empty. */
    method DrainOne(slot: nat, ghost l0: Line, ghost got: seq<Byte>) returns (more: bool, ghost b: Byte)
      requires device.Valid() && Draining(l0, u.counts, got, device.State(), stats)
      requires recvBuf != null && slot < recvBuf.Length
      modifies this`stats, device, recvBuf
      ensures device.Valid()
      ensures more ==> Draining(l0, u.counts, got + [b], device.State(), stats)
      ensures more ==> recvBuf[..] == old(recvBuf[..])[slot := b]
      ensures !more ==> Draining(l0, u.counts, got, device.State(), stats) && device.rx == []
      ensures !more ==> recvBuf[..] == old(recvBuf[..])
      ensures device.log == old(device.log) + if more then [ReadsStatus, ReadsData] else [ReadsStatus]
    {
      ghost var l1 := device.State();
      var status := device.ReadStatus();
      ghost var l2 := device.State();
      DrainWaits(l0, u.counts, got, l1, l2, stats);
      if !Test(status, SR_RX_FIFO_VALID_DATA) {
        return false, 0;
      }
      ghost var e, stats0 := device.lastErrors, stats;
      b := TakeByte(status, slot);
      DrainTakes(l0, u.counts, got, l2, device.State(), b, e, stats0);
      more := true;
    }

    /** The same after `received` turns, in terms of the buffer and the register accesses before the first. */
    method DrainNext(received: nat, ghost l0: Line, ghost got: seq<Byte>,
                     ghost buf0: seq<Byte>, ghost log0: seq<Access>)
      returns (more: bool, ghost b: Byte)
      requires device.Valid() && Draining(l0, u.counts, got, device.State(), stats) && received == |got|
      requires recvBuf != null && recvNext + received < recvBuf.Length == |buf0|
      requires recvBuf[..] == Overlaid(buf0, recvNext, got) && device.log == log0 + PopLog(received)
      modifies this`stats, device, recvBuf
      ensures device.Valid()
      ensures more ==>
                && Draining(l0, u.counts, got + [b], device.State(), stats)
                && recvBuf[..] == Overlaid(buf0, recvNext, got + [b])
                && device.log == log0 + PopLog(received + 1)
      ensures !more ==>
                && Draining(l0, u.counts, got, device.State(), stats) && device.rx == []
                && recvBuf[..] == Overlaid(buf0, recvNext, got)
                && device.log == log0 + (PopLog(received) + [ReadsStatus])
    {
      more, b := DrainOne(recvNext + received, l0, got);
      if more {
        OverlaidStep(buf0, recvNext, got, b);
        PopLogStep(log0, received);
      } else {
        Associates(log0, PopLog(received), [ReadsStatus]);
      }
    }

    /** The receive loop of XUartLite_ReceiveBuffer. */
    method DrainFifo() returns (received: nat, ghost got: seq<Byte>)
      requires device.Valid() && u.line == device.State() && stats == Reduced(u.counts)
      requires recvRemaining > 0 ==> recvBuf != null && recvNext + recvRemaining <= recvBuf.Length
      requires sendRemaining > 0 ==> sendBuf != null && (recvRemaining > 0 ==> sendBuf != recvBuf)
      modifies this`stats, device, recvBuf
      ensures device.Valid() && received == |got| && Empties(u.line, device.State(), recvRemaining, got)
      ensures stats == Reduced(ErrorsCharged(u.counts, device.errs[|u.line.errs|..]))
      ensures sendRemaining > 0 ==> sendBuf[..] == old(sendBuf[..])
      ensures recvBuf != null ==> recvBuf[..] == Overlaid(old(recvBuf[..]), recvNext, got)
      ensures device.log == old(device.log) + DrainLog(received, recvRemaining)
    {
      ghost var l0, log0 := u.line, device.log;
      received, got := 0, [];
      DrainStarts(l0, u.counts);
      while received < recvRemaining
        modifies this`stats, device, recvBuf
        invariant received == |got| <= recvRemaining
        invariant device.Valid() && Draining(l0, u.counts, got, device.State(), stats)
        invariant sendRemaining > 0 ==> sendBuf[..] == old(sendBuf[..])
        invariant recvBuf != null ==> recvBuf[..] == Overlaid(old(recvBuf[..]), recvNext, got)
        invariant device.log == log0 + PopLog(received)
      {
        ghost var b;
        var more;
        more, b := DrainNext(received, l0, got, old(recvBuf[..]), log0);
        if !more {
          DrainStops(l0, u.counts, got, device.State(), stats, recvRemaining);
          return;
        }
        received, got := received + 1, got + [b];
      }
      DrainStops(l0, u.counts, got, device.State(), stats, recvRemaining);
      NothingAfter(PopLog(received));
    }

    /** The critical region that ends XUartLite_ReceiveBuffer. */
    method AdvanceRecv(received: nat)
      requires device.Valid() && received <= recvRemaining
      modifies this`recvNext, this`recvRemaining, this`stats, device
      ensures device.Valid() && Moved(old(device.State()), device.State(), [], [])
      ensures recvNext == old(recvNext) + received && recvRemaining == old(recvRemaining) - received
      ensures stats == old(stats).(charsRx := (old(stats).charsRx + received) % U32_RANGE)
      ensures device.log == old(device.log) + CriticalLog(old(device.intr))
    {
      ghost var l := device.State();
      var status := EnterCritical();
      ghost var m := device.State();
      recvNext := recvNext + received;
      recvRemaining := recvRemaining - received;
      stats := stats.(charsRx := (stats.charsRx + received) % U32_RANGE);
      LeaveCritical(status);
      QuietExtends(l, m, device.State(), [], []);
    }

    /** The loop and the critical region after it. */
    method TakeAll() returns (received: nat, ghost got: seq<Byte>)
      requires device.Valid() && u.line == device.State() && stats == Reduced(u.counts)
      requires recvRemaining > 0 ==> recvBuf != null && recvNext + recvRemaining <= recvBuf.Length
      requires sendRemaining > 0 ==> sendBuf != null && (recvRemaining > 0 ==> sendBuf != recvBuf)
      modifies this`recvNext, this`recvRemaining, this`stats, device, recvBuf
      ensures device.Valid() && received == |got| && Empties(u.line, device.State(), old(recvRemaining), got)
      ensures recvNext == old(recvNext) + received && recvRemaining == old(recvRemaining) - received
      ensures stats == Reduced(Charged(u.counts, device.errs[|u.line.errs|..]))
      ensures sendRemaining > 0 ==> sendBuf[..] == old(sendBuf[..])
      ensures recvBuf != null ==> recvBuf[..] == Overlaid(old(recvBuf[..]), old(recvNext), got)
      ensures device.log == old(device.log) + RecvLog(received, old(recvRemaining), old(device.intr))
    {
      ghost var want := recvRemaining;
      received, got := DrainFifo();
      ghost var l1, stats1 := device.State(), stats;
      AdvanceRecv(received);
      TakenTogether(u.line, l1, device.State(), want, got, u.counts, stats1, stats);
      Associates(old(device.log), DrainLog(received, want), CriticalLog(l1.intr));
    }

    /** XUartLite_ReceiveBuffer. */
    method ReceiveBuffer() returns (received: nat, ghost got: seq<Byte>)
      requires Core()
      modifies this, device, recvBuf
      ensures Core() && sendBuf == old(sendBuf) && recvBuf == old(recvBuf) && received == |got|
      ensures stats.txIntr == old(stats).txIntr && stats.rxIntr == old(stats).rxIntr
      ensures recvBuf != null && old(recvBuf[..]) == BufferImage(Last(old(u).recvs)) ==>
                recvBuf[..] == BufferImage(Last(u.recvs))
      ensures var r := Last(old(u).recvs);
              && Empties(old(u).line, u.line, Missing(r), got)
              && u == old(u).(
                   line := u.line,
                   recvs := SetLast(old(u).recvs, r.(stored := r.stored + got)),
                   counts := Charged(old(u).counts, u.line.errs[|old(u).line.errs|..]))
              && device.log == old(device.log) + RecvLog(received, old(recvRemaining), old(device.intr))
    {
      ghost var l0, r := u.line, Last(u.recvs);
      received, got := TakeAll();
      ImageExtends(r, got);
      u := u.(line := device.State(),
              recvs := SetLast(u.recvs, r.(stored := r.stored + got)),
              counts := Charged(u.counts, device.errs[|l0.errs|..]));
    }

    // ---- The application's calls ----

    /** XUartLite_Send's critical region: replace whatever was being sent by the new buffer. */
    method OpenSend(buf: array<Byte>, n: nat)
      requires Core() && n <= buf.Length
      requires n > 0 && recvRemaining > 0 ==> buf != recvBuf
      modifies this, device
      ensures Core() && recvRemaining == old(recvRemaining) && recvBuf == old(recvBuf) && sendBuf == buf
      ensures Moved(old(u).line, u.line, [], [])
      ensures u == old(u).(
                line := u.line,
                sends := old(u).sends + [SendSession(buf[..n], 0, |old(u).line.pushed|)],
                requested := n)
      ensures device.log == old(device.log) + CriticalLog(old(device.intr))
    {
      ghost var l := device.State();
      var status := EnterCritical();
      ghost var m := device.State();
      sendRequested, sendRemaining := n, n;
      sendBuf, sendNext := buf, 0;
      LeaveCritical(status);
      QuietExtends(l, m, device.State(), [], []);
      u := u.(line := device.State(),
              sends := u.sends + [SendSession(buf[..n], 0, |l.pushed|)],
              requested := n);
    }

    /** XUartLite_Send. The two buffers of unfinished sessions must be different arrays. */
    method Send(buf: array<Byte>, n: nat) returns (sent: nat)
      requires Valid() && n <= buf.Length && n < 0x8000_0000
      requires n > 0 && recvRemaining > 0 ==> buf != recvBuf
      modifies this, device
      ensures Valid() && Next(old(u), UartSpec.Send(buf[..n]), u)
      ensures sent == Last(u.sends).pushed <= n
      ensures recvBuf == old(recvBuf) && recvRemaining == old(recvRemaining)
      ensures var on := old(device.intr);
              device.log == old(device.log) + CriticalLog(on) + SendLog(buf[..n][..sent], on)
    {
      OpenSend(buf, n);
      ghost var m := u;
      sent := SendBuffer();
      assert buf[..n][0..] == buf[..n];
      SendTogether(old(u), m, buf[..n], sent, u);
      NextKeepsInv(old(u), UartSpec.Send(buf[..n]), u);
    }

    /** XUartLite_Recv's critical region. */
    method OpenRecv(buf: array<Byte>, n: nat)
      requires Core() && n <= buf.Length
      requires n > 0 && sendRemaining > 0 ==> buf != sendBuf
      modifies this, device
      ensures Core() && sendRemaining == old(sendRemaining) && sendBuf == old(sendBuf) && recvBuf == buf
      ensures Moved(old(u).line, u.line, [], [])
      ensures u == old(u).(line := u.line, recvs := old(u).recvs + [RecvSession(buf[..], n, [])])
      ensures recvRemaining == n && device.log == old(device.log) + CriticalLog(old(device.intr))
    {
      ghost var l := device.State();
      var status := EnterCritical();
      ghost var m := device.State();
      recvRequested, recvRemaining := n, n;
      recvBuf, recvNext := buf, 0;
      LeaveCritical(status);
      QuietExtends(l, m, device.State(), [], []);
      u := u.(line := device.State(), recvs := u.recvs + [RecvSession(buf[..], n, [])]);
      assert BufferImage(RecvSession(buf[..], n, [])) == buf[..];
    }

    /** XUartLite_Recv. */
    method Recv(buf: array<Byte>, n: nat) returns (received: nat)
      requires Valid() && n <= buf.Length && n < 0x8000_0000
      requires n > 0 && sendRemaining > 0 ==> buf != sendBuf
      modifies this, device, buf
      ensures Valid() && Next(old(u), UartSpec.Recv(old(buf[..]), n), u)
      ensures received == |Last(u.recvs).stored| && buf[..] == BufferImage(Last(u.recvs))
      ensures recvBuf == buf && sendBuf == old(sendBuf) && sendRemaining == old(sendRemaining)
      ensures var on := old(device.intr);
              device.log == old(device.log) + CriticalLog(on) + RecvLog(received, n, on)
    {
      OpenRecv(buf, n);
      ghost var m := u;
      assert buf[..] == BufferImage(Last(u.recvs));
      ghost var got;
      received, got := ReceiveBuffer();
      RecvTogether(old(u), m, old(buf[..]), n, got, u);
      NextKeepsInv(old(u), UartSpec.Recv(old(buf[..]), n), u);
    }

    method FlushFifos() returns (ghost m: Line)
      requires device.Valid()
      modifies device
      ensures device.Valid() && Quiet(old(device.State()), m) && device.State() == Cleared(m)
      ensures device.log == old(device.log) + ResetLog(old(device.intr))
    {
      ghost var l := device.State();
      var status := device.ReadStatus();
      ghost var k := device.State();
      MaskedStatusRestoresEnable(Status(device.lastErrors, device.intr, |device.tx| == FIFO_SIZE, device.tx == [],
                                        |device.rx| == FIFO_SIZE, device.rx != []));
      var w := (status & SR_INTR_ENABLED) | CR_FIFO_TX_RESET | CR_FIFO_RX_RESET;
      device.WriteControl(w);
      m :| Quiet(k, m) && device.State() == Controlled(m, Decode(w));
      QuietExtends(l, k, m, [], []);
    }

    /** XUartLite_ResetFifos. */
    method ResetFifos() returns (ghost flushed: Line)
      requires Valid()
      modifies this`u, device
      ensures Valid() && Next(old(u), UartSpec.ResetFifos(flushed), u)
      ensures device.log == old(device.log) + ResetLog(old(device.intr))
    {
      flushed := FlushFifos();
      u := u.(line := device.State());
      NextKeepsInv(old(u), UartSpec.ResetFifos(flushed), u);
    }

    /** XUartLite_EnableInterrupt and XUartLite_DisableInterrupt. */
    method SetInterrupt(on: bool)
      requires Valid()
      modifies this`u, device
      ensures Valid() && Next(old(u), UartSpec.SetInterrupt(on), u)
      ensures device.log == old(device.log) + [WritesControl(Bit(on, CR_ENABLE_INTR))]
    {
      assert Decode(CR_ENABLE_INTR) == Control(true, false, false) && Decode(0) == Control(false, false, false);
      device.WriteControl(if on then CR_ENABLE_INTR else 0);
      u := u.(line := device.State());
      NextKeepsInv(old(u), UartSpec.SetInterrupt(on), u);
    }

    /** XUartLite_ClearStats. */
    method ClearStats()
      requires Valid()
      modifies this`u, this`stats
      ensures Valid() && Next(old(u), UartSpec.ClearStats, u) && stats == NO_COUNTS
    {
      stats := NO_COUNTS;
      u := u.(counts := NO_COUNTS, clearTx := |u.line.pushed|, clearRx := |u.line.popped|);
      NextKeepsInv(old(u), UartSpec.ClearStats, u);
    }

    // ---- The interrupt handler ----

    /** ReceiveDataHandler. */
    method ReceiveDataHandler()
      requires Core()
      modifies this, device, recvBuf
      ensures Core() && RecvIrq(old(u), u)
      ensures stats.rxIntr == (old(stats).rxIntr + 1) % U32_RANGE && stats.txIntr == old(stats).txIntr
      ensures sendBuf == old(sendBuf) && recvBuf == old(recvBuf)
      ensures recvBuf != null && old(recvBuf[..]) == BufferImage(Last(old(u).recvs)) ==>
                recvBuf[..] == BufferImage(Last(u.recvs))
    {
      ghost var got := [];
      if recvRemaining != 0 {
        var received;
        received, got := ReceiveBuffer();
      } else {
        NothingReceived(u);
      }
      ghost var m := u;
      ReportRecv();
      RecvIrqTogether(old(u), m, got, u);
    }

    /** The end of ReceiveDataHandler: RecvHandler(RecvCallBackRef, RequestedBytes - RemainingBytes) if the buffer
        is full, and the interrupt counter. */
    method ReportRecv()
      requires Core()
      modifies this`stats, this`u
      ensures Core() && stats == old(stats).(rxIntr := (old(stats).rxIntr + 1) % U32_RANGE)
      ensures var r := Last(old(u).recvs);
              u == old(u).(
                counts := old(u).counts.(rxIntr := old(u).counts.rxIntr + 1),
                calls := old(u).calls + if Missing(r) == 0 then [RecvDone(|old(u).recvs| - 1, r.size)] else [])
    {
      if recvRemaining == 0 {
        u := u.(calls := u.calls + [RecvDone(|u.recvs| - 1, recvRequested - recvRemaining)]);
      }
      InterruptsCounted(u.counts);
      stats := stats.(rxIntr := (stats.rxIntr + 1) % U32_RANGE);
      u := u.(counts := u.counts.(rxIntr := u.counts.rxIntr + 1));
    }

    /** The session is over: forget it, then call SendHandler(SendCallBackRef, SaveReq). */
    method ReportSent()
      requires Core()
      modifies this`sendRequested, this`u
      ensures Core()
      ensures u == old(u).(
                requested := 0,
                calls := old(u).calls + [SendDone(|old(u).sends| - 1, old(u).requested, |old(u).line.wire|,
                                                  old(u).line.txCut <= Last(old(u).sends).start)])
    {
      var saveReq := sendRequested;
      sendRequested := 0;
      u := u.(requested := 0,
              calls := u.calls + [SendDone(|u.sends| - 1, saveReq, |u.line.wire|,
                                           u.line.txCut <= Last(u.sends).start)]);
    }

    method CountSendInterrupt()
      requires Core()
      modifies this`stats, this`u
      ensures Core() && stats == old(stats).(txIntr := (old(stats).txIntr + 1) % U32_RANGE)
      ensures u == old(u).(
                counts := old(u).counts.(txIntr := old(u).counts.txIntr + 1))
    {
      InterruptsCounted(u.counts);
      stats := stats.(txIntr := (stats.txIntr + 1) % U32_RANGE);
      u := u.(counts := u.counts.(txIntr := u.counts.txIntr + 1));
    }

    /** SendDataHandler. */
    method SendDataHandler()
      requires Core() && sendRequested > 0
      modifies this, device
      ensures Core() && SendIrq(old(u), u)
      ensures stats.txIntr == (old(stats).txIntr + 1) % U32_RANGE && stats.rxIntr == old(stats).rxIntr
      ensures sendBuf == old(sendBuf) && recvBuf == old(recvBuf) && recvRemaining == old(recvRemaining)
    {
      if sendRemaining == 0 {
        ReportSent();
        CountSendInterrupt();
      } else {
        var sent := SendBuffer();
        ghost var m := u;
        CountSendInterrupt();
        SendIrqTogether(old(u), m, sent, u);
      }
    }

    /** The handler's one status register read. */
    method SampleStatus() returns (w: Byte)
      requires Core()
      modifies this`u, device
      ensures Core() && Quiet(old(u).line, u.line) && u == old(u).(line := u.line)
      ensures (w & (SR_RX_FIFO_FULL | SR_RX_FIFO_VALID_DATA) != 0) <==> u.line.rx != []
      ensures Test(w, SR_TX_FIFO_EMPTY) <==> u.line.tx == []
    {
      w := device.ReadStatus();
      u := u.(line := device.State());
      RegisterTests(w, u.line, device.lastErrors);
    }

    method DispatchInterrupt() returns (ghost act: Action)
      requires Core()
      modifies this, device, recvBuf
      ensures Core() && act.Interrupt? && IsrStep(old(u), act.sampled, act.received, u)
      ensures CountsInterrupts(old(stats), act, stats)
      ensures sendBuf == old(sendBuf) && recvBuf == old(recvBuf)
      ensures recvBuf != null && old(recvBuf[..]) == BufferImage(Last(old(u).recvs)) ==>
                recvBuf[..] == BufferImage(Last(u.recvs))
    {
      var isrStatus := SampleStatus();
      ghost var m := u;
      if isrStatus & (SR_RX_FIFO_FULL | SR_RX_FIFO_VALID_DATA) != 0 {
        ReceiveDataHandler();
      }
      ghost var n := u;
      if Test(isrStatus, SR_TX_FIFO_EMPTY) && sendRequested > 0 {
        SendDataHandler();
      }
      act := Interrupt(m, n);
    }

    /** XUartLite_InterruptHandler. */
    method InterruptHandler() returns (ghost act: Action)
      requires Valid()
      modifies this, device, recvBuf
      ensures Valid() && act.Interrupt? && Next(old(u), act, u) && CountsInterrupts(old(stats), act, stats)
      ensures sendBuf == old(sendBuf) && recvBuf == old(recvBuf)
      ensures recvBuf != null && old(recvBuf[..]) == BufferImage(Last(old(u).recvs)) ==>
                recvBuf[..] == BufferImage(Last(u.recvs))
    {
      act := DispatchInterrupt();
      NextKeepsInv(old(u), act, u);
    }
  }

  /** A handler call adds one to the receive interrupts exactly if it found data, and one to the transmit interrupts
      exactly if it found the transmit FIFO empty and something was being sent. */
  ghost predicate CountsInterrupts(before: Counts, act: Action, after: Counts)
    requires act.Interrupt?
  {
    && after.rxIntr == (if act.sampled.line.rx != [] then (before.rxIntr + 1) % U32_RANGE else before.rxIntr)
    && after.txIntr == (if act.sampled.line.tx == [] && act.received.requested > 0
                        then (before.txIntr + 1) % U32_RANGE else before.txIntr)
  }

  lemma RegisterTests(w: Byte, l: Line, e: Errors)
    requires w == StatusWord(Status(e, l.intr, |l.tx| == FIFO_SIZE, l.tx == [], |l.rx| == FIFO_SIZE, l.rx != []))
    ensures (w & (SR_RX_FIFO_FULL | SR_RX_FIFO_VALID_DATA) != 0) <==> l.rx != []
    ensures Test(w, SR_TX_FIFO_EMPTY) <==> l.tx == []
  {
    assert (w & 0x03 != 0) <==> (Test(w, SR_RX_FIFO_FULL) || Test(w, SR_RX_FIFO_VALID_DATA));
  }

  lemma NothingReceived(s: Uart)
    requires s.recvs != []
    ensures Charged(s.counts, s.line.errs[|s.line.errs|..]) == s.counts
    ensures SetLast(s.recvs, Last(s.recvs).(stored := Last(s.recvs).stored + [])) == s.recvs
  {
    assert s.line.errs[|s.line.errs|..] == [];
    assert Last(s.recvs).stored + [] == Last(s.recvs).stored;
  }

  /** Emptying the FIFO into the current session and reporting it is one ReceiveDataHandler step. */
  lemma RecvIrqTogether(s: Uart, m: Uart, got: seq<Byte>, s': Uart)
    requires s.recvs != [] && Missing(Last(s.recvs)) >= 0 && |s.line.errs| <= |m.line.errs|
    requires var r := Last(s.recvs);
             && (if Missing(r) != 0 then Empties(s.line, m.line, Missing(r), got) else m.line == s.line && got == [])
             && m == s.(line := m.line, recvs := SetLast(s.recvs, r.(stored := r.stored + got)),
                        counts := Charged(s.counts, m.line.errs[|s.line.errs|..]))
    requires var r := Last(m.recvs);
             s' == m.(counts := m.counts.(rxIntr := m.counts.rxIntr + 1),
                      calls := if Missing(r) == 0 then m.calls + [RecvDone(|m.recvs| - 1, r.size)] else m.calls)
    ensures RecvIrq(s, s')
  {
    assert RecvIrqPops(s, got, s');
  }

  /** Filling the FIFO for the current session and counting the entry is one SendDataHandler step. */
  lemma SendIrqTogether(s: Uart, m: Uart, k: nat, s': Uart)
    requires s.sends != [] && Unsent(Last(s.sends)) > 0
    requires var q := Last(s.sends);
             && Fills(s.line, m.line, q.data[q.pushed..], k)
             && m == s.(line := m.line, sends := SetLast(s.sends, q.(pushed := q.pushed + k)),
                        counts := s.counts.(charsTx := s.counts.charsTx + k))
    requires s' == m.(counts := m.counts.(txIntr := m.counts.txIntr + 1))
    ensures SendIrq(s, s')
  {
    assert SendIrqPushes(s, k, s');
  }

  /** Opening a session and filling the FIFO is one Send step. */
  lemma SendTogether(s: Uart, m: Uart, data: seq<Byte>, k: nat, s': Uart)
    requires Moved(s.line, m.line, [], [])
    requires m == s.(line := m.line, requested := |data|,
                     sends := s.sends + [SendSession(data, 0, |s.line.pushed|)])
    requires Fills(m.line, s'.line, data[0..], k)
    requires s' == m.(line := s'.line, sends := SetLast(m.sends, Last(m.sends).(pushed := k)),
                      counts := m.counts.(charsTx := m.counts.charsTx + k))
    ensures Next(s, UartSpec.Send(data), s')
  {
    assert data[0..] == data;
    QuietThenFills(s.line, m.line, s'.line, data, k);
    assert SendPushes(s, data, k, s');
  }

  lemma RecvTogether(s: Uart, m: Uart, before: seq<Byte>, size: nat, got: seq<Byte>, s': Uart)
    requires Moved(s.line, m.line, [], []) && size <= |before|
    requires m == s.(line := m.line, recvs := s.recvs + [RecvSession(before, size, [])])
    requires Empties(m.line, s'.line, size, got)
    requires |m.line.errs| <= |s'.line.errs|
    requires s' == m.(line := s'.line, recvs := SetLast(m.recvs, Last(m.recvs).(stored := [] + got)),
                      counts := Charged(m.counts, s'.line.errs[|m.line.errs|..]))
    ensures Next(s, UartSpec.Recv(before, size), s')
  {
    QuietThenEmpties(s.line, m.line, s'.line, size, got);
    assert [] + got == got;
    assert RecvPops(s, before, size, got, s');
  }
}
