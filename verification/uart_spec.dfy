/** The UART Lite driver as a transition system: one step per driver call, with the hardware free to move
    whenever the driver touches a register. */
module UartSpec {
  import opened UartRegisters
  import opened UartLine
  import opened Basics

  /** One XUartLite_Send: the bytes it was given, how many of them the driver has put into the transmit FIFO,
      and how many bytes had ever been put there before it. */
  datatype SendSession = SendSession(data: seq<Byte>, pushed: nat, start: nat)

  /** One XUartLite_Recv: the caller's buffer as it was, the bytes asked for and the bytes stored so far. */
  datatype RecvSession = RecvSession(before: seq<Byte>, size: nat, stored: seq<Byte>)

  /**
   * An application callback: the session it was made for and its ByteCount argument. SendDone also records
   * how much had left on the wire, and whether no FIFO reset happened since that Send.
   */
  datatype Callback =
    | SendDone(session: nat, arg: nat, wired: nat, intact: bool)
    | RecvDone(session: nat, arg: nat)

  /** The statistics since they were last cleared, before reduction to 32 bits. */
  datatype Counts = Counts(
    txIntr: nat, rxIntr: nat, charsTx: nat, charsRx: nat, overrun: nat, parity: nat, framing: nat)

  /**
   * The driver instance and its device. The last element of sends and of recvs is the current session;
   * before any call it is the empty session XUartLite_CfgInitialize sets up. requested is
   * SendBuffer.RequestedBytes. The boot and clear marks are positions in the line's histories.
   */
  datatype Uart = Uart(
    line: Line, sends: seq<SendSession>, requested: nat, recvs: seq<RecvSession>, calls: seq<Callback>, counts: Counts,
    bootTx: nat, bootRx: nat, clearTx: nat, clearRx: nat)

  function SetLast<T>(s: seq<T>, x: T): seq<T>
    requires s != []
  {
    s[|s| - 1 := x]
  }

  /** SendBuffer.RemainingBytes and ReceiveBuffer.RemainingBytes. */
  function Unsent(q: SendSession): int { |q.data| - q.pushed }
  function Missing(q: RecvSession): int { q.size - |q.stored| }

  /** What a receive buffer must hold: the stored bytes over the front of what was there. */
  function BufferImage(q: RecvSession): seq<Byte>
    requires |q.stored| <= |q.before|
  {
    q.stored + q.before[|q.stored|..]
  }

  datatype Kind = Overrun | Parity | Framing

  /** How many of the received bytes were charged with an error of this kind. */
  function Tally(errs: seq<Errors>, k: Kind): (n: nat)
    ensures n <= |errs|
  {
    if errs == [] then 0
    else
      var e := Last(errs);
      Tally(errs[..|errs| - 1], k)
      + (if (match k case Overrun => e.overrun case Parity => e.parity case Framing => e.framing) then 1 else 0)
  }

  function Charged(c: Counts, errs: seq<Errors>): Counts {
    c.(charsRx := c.charsRx + |errs|,
       overrun := c.overrun + Tally(errs, Overrun),
       parity := c.parity + Tally(errs, Parity),
       framing := c.framing + Tally(errs, Framing))
  }

  const NO_COUNTS := Counts(0, 0, 0, 0, 0, 0, 0)

  ghost predicate Init(s: Uart) {
    && LineInv(s.line) && !s.line.intr
    && s.sends == [SendSession([], 0, |s.line.pushed|)] && s.requested == 0
    && s.recvs == [RecvSession([], 0, [])] && s.calls == []
    && s.counts == NO_COUNTS
    && s.bootTx == s.clearTx == |s.line.pushed| && s.bootRx == s.clearRx == |s.line.popped|
  }

  // ---- The steps ----

  /** An Exchange inside a call that leaves the interrupt-enable bit as it was. */
  ghost predicate Moved(l: Line, m: Line, out: seq<Byte>, into: seq<Byte>) {
    Exchange(l, m, out, into) && m.intr == l.intr
  }

  /** XUartLite_SendBuffer: push a prefix of `rest`, stopping early only at a FIFO that is full after it. */
  ghost predicate Fills(l: Line, m: Line, rest: seq<Byte>, k: nat) {
    && k <= |rest| && Moved(l, m, rest[..k], [])
    && (k == |rest| || exists f :: FullAt(l, f, m, rest[..k]))
  }

  ghost predicate FullAt(l: Line, f: Line, m: Line, out: seq<Byte>) {
    Moved(l, f, out, []) && |f.tx| == FIFO_SIZE && Moved(f, m, [], [])
  }

  /** XUartLite_ReceiveBuffer: pop up to `want` bytes, stopping early only at a FIFO that is empty after them. */
  ghost predicate Empties(l: Line, m: Line, want: nat, got: seq<Byte>) {
    && |got| <= want && Moved(l, m, [], got)
    && (|got| == want || exists e :: EmptyAt(l, e, m, got))
  }

  ghost predicate EmptyAt(l: Line, e: Line, m: Line, got: seq<Byte>) {
    Moved(l, e, [], got) && e.rx == [] && Moved(e, m, [], [])
  }

  /** Hardware activity before a stretch of pushes and pops, or after it, belongs to it. */
  lemma QuietFirst(k: Line, l: Line, m: Line, out: seq<Byte>, into: seq<Byte>)
    requires Moved(k, l, [], []) && Moved(l, m, out, into)
    ensures Moved(k, m, out, into)
  {
    ExchangeChains(k, l, m, [], [], out, into);
    assert [] + out == out && [] + into == into;
  }

  lemma QuietLast(l: Line, m: Line, n: Line, out: seq<Byte>, into: seq<Byte>)
    requires Moved(l, m, out, into) && Moved(m, n, [], [])
    ensures Moved(l, n, out, into)
  {
    ExchangeChains(l, m, n, out, into, [], []);
    assert out + [] == out && into + [] == into;
  }

  lemma QuietThenFills(k: Line, l: Line, m: Line, rest: seq<Byte>, j: nat)
    requires Moved(k, l, [], []) && Fills(l, m, rest, j)
    ensures Fills(k, m, rest, j)
  {
    QuietFirst(k, l, m, rest[..j], []);
    if j != |rest| {
      var f :| FullAt(l, f, m, rest[..j]);
      QuietFirst(k, l, f, rest[..j], []);
      assert FullAt(k, f, m, rest[..j]);
    }
  }

  lemma FillsThenQuiet(l: Line, m: Line, n: Line, rest: seq<Byte>, j: nat)
    requires Fills(l, m, rest, j) && Moved(m, n, [], [])
    ensures Fills(l, n, rest, j)
  {
    QuietLast(l, m, n, rest[..j], []);
    if j != |rest| {
      var f :| FullAt(l, f, m, rest[..j]);
      QuietLast(f, m, n, [], []);
      assert FullAt(l, f, n, rest[..j]);
    }
  }

  lemma QuietThenEmpties(k: Line, l: Line, m: Line, want: nat, got: seq<Byte>)
    requires Moved(k, l, [], []) && Empties(l, m, want, got)
    ensures Empties(k, m, want, got)
  {
    QuietFirst(k, l, m, [], got);
    if |got| != want {
      var e :| EmptyAt(l, e, m, got);
      QuietFirst(k, l, e, [], got);
      assert EmptyAt(k, e, m, got);
    }
  }

  lemma EmptiesThenQuiet(l: Line, m: Line, n: Line, want: nat, got: seq<Byte>)
    requires Empties(l, m, want, got) && Moved(m, n, [], [])
    ensures Empties(l, n, want, got)
  {
    QuietLast(l, m, n, [], got);
    if |got| != want {
      var e :| EmptyAt(l, e, m, got);
      QuietLast(e, m, n, [], []);
      assert EmptyAt(l, e, n, got);
    }
  }

  /** So it pushes at least what there was room for, and pops at least what was there. */
  lemma FillsAtLeast(l: Line, m: Line, rest: seq<Byte>, k: nat)
    requires Fills(l, m, rest, k)
    ensures k == |rest| || |l.tx| + k >= FIFO_SIZE
  {
    if k != |rest| {
      var f :| FullAt(l, f, m, rest[..k]);
      assert |f.wire| + |f.tx| == |l.wire| + |l.tx| + k;
    }
  }

  lemma EmptiesAtLeast(l: Line, m: Line, want: nat, got: seq<Byte>)
    requires Empties(l, m, want, got)
    ensures |got| == want || |got| >= |l.rx|
  {
    if |got| != want {
      var e :| EmptyAt(l, e, m, got);
      assert |got| + |e.rx| == |l.rx| + |e.accepted[|l.accepted|..]|;
    }
  }

  ghost predicate SendStep(s: Uart, data: seq<Byte>, s': Uart) {
    exists k: nat :: SendPushes(s, data, k, s')
  }

  ghost predicate SendPushes(s: Uart, data: seq<Byte>, k: nat, s': Uart) {
    && Fills(s.line, s'.line, data, k)
    && s' == s.(
         line := s'.line,
         sends := s.sends + [SendSession(data, k, |s.line.pushed|)],
         requested := |data|,
         counts := s.counts.(charsTx := s.counts.charsTx + k))
  }

  ghost predicate RecvStep(s: Uart, before: seq<Byte>, size: nat, s': Uart) {
    exists got :: RecvPops(s, before, size, got, s')
  }

  ghost predicate RecvPops(s: Uart, before: seq<Byte>, size: nat, got: seq<Byte>, s': Uart) {
    && size <= |before|
    && Empties(s.line, s'.line, size, got)
    && s' == s.(
         line := s'.line,
         recvs := s.recvs + [RecvSession(before, size, got)],
         counts := Charged(s.counts, s'.line.errs[|s.line.errs|..]))
  }

  /** ReceiveDataHandler. */
  ghost predicate RecvIrq(s: Uart, s': Uart) {
    s.recvs != [] && exists got :: RecvIrqPops(s, got, s')
  }

  ghost predicate RecvIrqPops(s: Uart, got: seq<Byte>, s': Uart)
    requires s.recvs != []
  {
    var q := Last(s.recvs);
    var q' := q.(stored := q.stored + got);
    && Missing(q) >= 0
    && (if Missing(q) != 0 then Empties(s.line, s'.line, Missing(q), got) else s'.line == s.line && got == [])
    && |s.line.errs| <= |s'.line.errs|
    && var charged := Charged(s.counts, s'.line.errs[|s.line.errs|..]);
       s' == s.(
         line := s'.line,
         recvs := SetLast(s.recvs, q'),
         calls := if Missing(q') == 0 then s.calls + [RecvDone(|s.recvs| - 1, q.size)] else s.calls,
         counts := charged.(rxIntr := charged.rxIntr + 1))
  }

  /** SendDataHandler with nothing left to push: report the session and forget it. */
  function Reported(s: Uart): Uart
    requires s.sends != []
  {
    var q := Last(s.sends);
    s.(requested := 0,
       calls := s.calls + [SendDone(|s.sends| - 1, s.requested, |s.line.wire|, s.line.txCut <= q.start)],
       counts := s.counts.(txIntr := s.counts.txIntr + 1))
  }

  /** SendDataHandler. */
  ghost predicate SendIrq(s: Uart, s': Uart) {
    && s.sends != []
    && if Unsent(Last(s.sends)) == 0 then s' == Reported(s) else exists k: nat :: SendIrqPushes(s, k, s')
  }

  ghost predicate SendIrqPushes(s: Uart, k: nat, s': Uart)
    requires s.sends != []
  {
    var q := Last(s.sends);
    && q.pushed <= |q.data|
    && Fills(s.line, s'.line, q.data[q.pushed..], k)
    && s' == s.(
         line := s'.line,
         sends := SetLast(s.sends, q.(pushed := q.pushed + k)),
         counts := s.counts.(charsTx := s.counts.charsTx + k, txIntr := s.counts.txIntr + 1))
  }

  /** XUartLite_InterruptHandler: m is the instance when the status register was read, n the one after the
      receive half. Both decisions are taken on the status word read at m. */
  ghost predicate IsrStep(s: Uart, m: Uart, n: Uart, s': Uart) {
    && Quiet(s.line, m.line) && m == s.(line := m.line)
    && (if m.line.rx != [] then RecvIrq(m, n) else n == m)
    && (if m.line.tx == [] && n.requested > 0 then SendIrq(n, s') else s' == n)
  }

  datatype Action =
    | Hardware
    | Send(data: seq<Byte>)
    | Recv(before: seq<Byte>, size: nat)
    | Interrupt(sampled: Uart, received: Uart)
    | ResetFifos(flushed: Line)
    | SetInterrupt(on: bool)
    | ClearStats

  ghost predicate Next(s: Uart, a: Action, s': Uart) {
    match a
    case Hardware => Quiet(s.line, s'.line) && s' == s.(line := s'.line)
    case Send(data) => SendStep(s, data, s')
    case Recv(before, size) => RecvStep(s, before, size, s')
    case Interrupt(m, n) => IsrStep(s, m, n, s')
    case ResetFifos(m) => Quiet(s.line, m) && s' == s.(line := Cleared(m))
    case SetInterrupt(on) => Exchange(s.line, s'.line, [], []) && s'.line.intr == on && s' == s.(line := s'.line)
    case ClearStats => s' == s.(counts := NO_COUNTS, clearTx := |s.line.pushed|, clearRx := |s.line.popped|)
  }

  ghost predicate StepAt(ss: seq<Uart>, acts: seq<Action>, i: nat)
    requires |ss| == |acts| + 1 && i < |acts|
  {
    Next(ss[i], acts[i], ss[i + 1])
  }

  /** A whole run: any calls in any order, from an initialized instance. */
  ghost predicate IsRun(ss: seq<Uart>, acts: seq<Action>) {
    && |ss| == |acts| + 1 && Init(ss[0])
    && forall i :: 0 <= i < |acts| ==> StepAt(ss, acts, i)
  }
}
