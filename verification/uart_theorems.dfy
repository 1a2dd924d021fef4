/** What the UART driver guarantees over whole runs. */
module UartTheorems {
  import opened UartRegisters
  import opened UartLine
  import opened UartSpec
  import opened Basics
  import opened UartInvariants

  lemma {:induction false} RunInv(ss: seq<Uart>, acts: seq<Action>, i: nat)
    requires IsRun(ss, acts) && i < |ss|
    ensures Inv(ss[i])
  {
    if i == 0 {
      InitInv(ss[0]);
    } else {
      RunInv(ss, acts, i - 1);
      assert StepAt(ss, acts, i - 1);
      NextKeepsInv(ss[i - 1], acts[i - 1], ss[i]);
    }
  }

  lemma RunExtends(ss: seq<Uart>, acts: seq<Action>, a: Action, s: Uart)
    requires IsRun(ss, acts) && Next(Last(ss), a, s)
    ensures IsRun(ss + [s], acts + [a])
  {
    forall i | 0 <= i < |acts + [a]| ensures StepAt(ss + [s], acts + [a], i) {
      if i < |acts| {
        assert StepAt(ss, acts, i);
      }
    }
  }

  // ---- Transmit ----

  /** What the application asked to send, call by call. */
  function Asked(acts: seq<Action>): seq<seq<Byte>> {
    if acts == [] then []
    else
      var a := Last(acts);
      Asked(Front(acts)) + (if a.Send? then [a.data] else [])
  }

  function Datas(sends: seq<SendSession>): seq<seq<Byte>> {
    if sends == [] then [] else Datas(Front(sends)) + [Last(sends).data]
  }

  lemma DatasStep(s: Uart, a: Action, s': Uart)
    requires s.sends != [] && Next(s, a, s')
    ensures s'.sends != []
    ensures Datas(s'.sends) == Datas(s.sends) + (if a.Send? then [a.data] else [])
  {
    if a.Send? {
      assert s'.sends[..|s.sends|] == s.sends;
    } else {
      SendsKept(s, a, s');
    }
  }

  /** Only Send opens a session; any other call at most pushes more of the current one. */
  lemma SendsKept(s: Uart, a: Action, s': Uart)
    requires s.sends != [] && Next(s, a, s') && !a.Send?
    ensures |s'.sends| == |s.sends| && Last(s'.sends).data == Last(s.sends).data
    ensures Front(s'.sends) == Front(s.sends)
  {
    match a
    case Recv(before, size) => var got :| RecvPops(s, before, size, got, s');
    case Interrupt(m, n) =>
      if m.line.rx != [] {
        var got :| RecvIrqPops(m, got, n);
      }
      if m.line.tx == [] && n.requested > 0 && Unsent(Last(n.sends)) != 0 {
        var k: nat :| SendIrqPushes(n, k, s');
      }
    case _ =>
  }

  /** The session list is the list of Send calls. */
  lemma {:induction false} SessionsAreSends(ss: seq<Uart>, acts: seq<Action>, i: nat)
    requires IsRun(ss, acts) && i < |ss|
    ensures ss[i].sends != [] && Datas(ss[i].sends) == [[]] + Asked(acts[..i])
  {
    if i == 0 {
      assert ss[0].sends[..0] == [] && acts[..0] == [];
    } else {
      SessionsAreSends(ss, acts, i - 1);
      assert StepAt(ss, acts, i - 1);
      DatasStep(ss[i - 1], acts[i - 1], ss[i]);
      assert acts[..i][..i - 1] == acts[..i - 1] && Last(acts[..i]) == acts[i - 1];
    }
  }

  ghost predicate NoReset(acts: seq<Action>, n: nat)
    requires n <= |acts|
  {
    forall i :: 0 <= i < n ==> !acts[i].ResetFifos?
  }

  /** What a step without a FIFO reset leaves alone. */
  ghost predicate Unreset(s: Uart, s': Uart) {
    && s.line.wire <= s'.line.wire && s.line.accepted <= s'.line.accepted && s.line.popped <= s'.line.popped
    && s'.line.wireCut == s.line.wireCut && s'.line.txCut == s.line.txCut
    && s'.line.rxCut == s.line.rxCut && s'.line.popCut == s.line.popCut
    && s'.bootTx == s.bootTx && s'.bootRx == s.bootRx && s.line.pushed <= s'.line.pushed
    && s.calls <= s'.calls
    && (s.line.txCut <= s.bootTx ==>
          forall j :: |s.calls| <= j < |s'.calls| && s'.calls[j].SendDone? ==> s'.calls[j].intact)
  }

  lemma UnresetChains(s: Uart, m: Uart, n: Uart)
    requires Unreset(s, m) && Unreset(m, n)
    ensures Unreset(s, n)
  {
  }

  lemma PartUnreset(s: Uart, p: Part, s': Uart)
    requires Inv(s) && PartStep(s, p, s') && !p.LineReset?
    ensures Unreset(s, s')
  {
    match p
    case LineMoves =>
    case Clear =>
    case Opens(data) => var k: nat :| SendPushes(s, data, k, s');
    case Asks(before, size) => var got :| RecvPops(s, before, size, got, s');
    case Takes => var got :| RecvIrqPops(s, got, s');
    case Gives =>
      CurrentIsTail(s);
      if Unsent(Last(s.sends)) != 0 {
        var k: nat :| SendIrqPushes(s, k, s');
      }
  }

  lemma StepUnreset(s: Uart, a: Action, s': Uart)
    requires Inv(s) && Next(s, a, s') && !a.ResetFifos?
    ensures Unreset(s, s')
  {
    match a
    case Hardware => PartUnreset(s, LineMoves, s');
    case Send(data) => PartUnreset(s, Opens(data), s');
    case Recv(before, size) => PartUnreset(s, Asks(before, size), s');
    case Interrupt(m, n) => IsrUnreset(s, m, n, s');
    case SetInterrupt(on) => PartUnreset(s, LineMoves, s');
    case ClearStats => PartUnreset(s, Clear, s');
  }

  lemma IsrUnreset(s: Uart, m: Uart, n: Uart, s': Uart)
    requires Inv(s) && IsrStep(s, m, n, s')
    ensures Unreset(s, s')
  {
    PartUnreset(s, LineMoves, m);
    PartKeepsInv(s, LineMoves, m);
    if m.line.rx != [] {
      PartUnreset(m, Takes, n);
      PartKeepsInv(m, Takes, n);
      UnresetChains(s, m, n);
    }
    if m.line.tx == [] && n.requested > 0 {
      if m.line.rx != [] {
        TakingLeavesTxEmpty(m, n);
      }
      PartUnreset(n, Gives, s');
      UnresetChains(s, n, s');
    }
  }

  lemma RunStepUnreset(ss: seq<Uart>, acts: seq<Action>, i: nat)
    requires IsRun(ss, acts) && i < |acts| && !acts[i].ResetFifos?
    ensures Unreset(ss[i], ss[i + 1])
  {
    RunInv(ss, acts, i);
    assert StepAt(ss, acts, i);
    StepUnreset(ss[i], acts[i], ss[i + 1]);
  }

  lemma {:induction false} RunUnreset(ss: seq<Uart>, acts: seq<Action>, i: nat)
    requires IsRun(ss, acts) && i < |ss| && NoReset(acts, i)
    ensures Unreset(ss[0], ss[i])
  {
    if i > 0 {
      RunUnreset(ss, acts, i - 1);
      RunStepUnreset(ss, acts, i - 1);
      UnresetChains(ss[0], ss[i - 1], ss[i]);
    }
  }

  /**
   * Transmit stream exactness. In every run without a FIFO reset, what has left on the wire followed by the
   * transmit FIFO is what was there at initialization followed by the pushed prefixes of all Send calls, in
   * call order: no gap, no duplicate, no reordering.
   */
  lemma TransmitExact(ss: seq<Uart>, acts: seq<Action>)
    requires IsRun(ss, acts) && NoReset(acts, |acts|)
    ensures var s := Last(ss);
            && s.line.wire + s.line.tx == ss[0].line.wire + ss[0].line.tx + Stream(s.sends)
            && Datas(s.sends) == [[]] + Asked(acts)
            && forall q <- s.sends :: SendOk(q)
  {
    var i := |acts|;
    assert acts[..i] == acts;
    RunInv(ss, acts, 0);
    RunInv(ss, acts, i);
    RunUnreset(ss, acts, i);
    SessionsAreSends(ss, acts, i);
    assert Stream(ss[i].sends) == ss[i].line.pushed[|ss[0].line.pushed|..];
    SentSince(ss[0].line, ss[i].line);
  }

  /** Without a reset, wire and tx together grow by exactly what was pushed. */
  lemma SentSince(l0: Line, l: Line)
    requires LineInv(l0) && LineInv(l)
    requires l0.wire <= l.wire && l0.pushed <= l.pushed && l.wireCut == l0.wireCut && l.txCut == l0.txCut
    ensures l.wire + l.tx == l0.wire + l0.tx + l.pushed[|l0.pushed|..]
  {
    var head, more := l0.wire[..l.wireCut], l.pushed[|l0.pushed|..];
    assert l.pushed[l.txCut..] == l0.pushed[l.txCut..] + more;
    calc {
      l.wire + l.tx;
      { assert l.wire == head + l.wire[l.wireCut..]; }
      (head + l.wire[l.wireCut..]) + l.tx;
      head + (l.wire[l.wireCut..] + l.tx);
      head + ((l0.wire[l.wireCut..] + l0.tx) + more);
      ((head + l0.wire[l.wireCut..]) + l0.tx) + more;
    }
    assert l0.wire == head + l0.wire[l.wireCut..];
  }

  /** Without a reset, what was popped and rx together grow by exactly what arrived. */
  lemma ReadSince(l0: Line, l: Line)
    requires LineInv(l0) && LineInv(l)
    requires l0.accepted <= l.accepted && l0.popped <= l.popped && l.rxCut == l0.rxCut && l.popCut == l0.popCut
    ensures l.popped[|l0.popped|..] + l.rx == l0.rx + l.accepted[|l0.accepted|..]
  {
    var head := l0.popped[l.popCut..];
    var more, arrivals := l.popped[|l0.popped|..], l.accepted[|l0.accepted|..];
    calc {
      head + (more + l.rx);
      (head + more) + l.rx;
      { assert l.popped[l.popCut..] == head + more; }
      l.accepted[l.rxCut..];
      { assert l.accepted[l.rxCut..] == l0.accepted[l.rxCut..] + arrivals; }
      (head + l0.rx) + arrivals;
      head + (l0.rx + arrivals);
    }
    SamePrefix(head, more + l.rx, l0.rx + arrivals);
  }

  /** With resets: since the last reset, what was pushed is on the wire or queued, and what rx took was read
      or is queued. */
  lemma ExactSinceReset(ss: seq<Uart>, acts: seq<Action>)
    requires IsRun(ss, acts)
    ensures var l := Last(ss).line;
            && l.txCut <= |l.pushed| && l.wireCut <= |l.wire| && l.rxCut <= |l.accepted| && l.popCut <= |l.popped|
            && l.pushed[l.txCut..] == l.wire[l.wireCut..] + l.tx
            && l.accepted[l.rxCut..] == l.popped[l.popCut..] + l.rx
  {
    RunInv(ss, acts, |acts|);
  }

  // ---- Receive ----

  /**
   * Receive stream exactness. In every run without a FIFO reset, what the Recv sessions stored, one after
   * another, followed by the receive FIFO is what was in the FIFO at initialization followed by every byte
   * accepted since. No session stores more than it asked for.
   */
  lemma ReceiveExact(ss: seq<Uart>, acts: seq<Action>)
    requires IsRun(ss, acts) && NoReset(acts, |acts|)
    ensures var s, s0 := Last(ss), ss[0];
            && s0.line.accepted <= s.line.accepted
            && Stored(s.recvs) + s.line.rx == s0.line.rx + s.line.accepted[|s0.line.accepted|..]
            && forall i :: 0 <= i < |s.recvs| ==> RecvOk(s.recvs[i])
  {
    var i := |acts|;
    assert acts[..i] == acts;
    RunInv(ss, acts, 0);
    RunInv(ss, acts, i);
    RunUnreset(ss, acts, i);
    ReadSince(ss[0].line, ss[i].line);
  }

  lemma SamePrefix<T>(p: seq<T>, a: seq<T>, b: seq<T>)
    requires p + a == p + b
    ensures a == b
  {
    assert a == (p + a)[|p|..] && b == (p + b)[|p|..];
  }

  // ---- Safety of the register accesses ----

  lemma StepSafe(s: Uart, a: Action, s': Uart)
    requires Next(s, a, s')
    ensures s'.line.refused == s.line.refused
    ensures s'.line.intr == (if a.SetInterrupt? then a.on else s.line.intr)
  {
    match a
    case Hardware =>
    case Send(data) => var k: nat :| SendPushes(s, data, k, s');
    case Recv(before, size) => var got :| RecvPops(s, before, size, got, s');
    case Interrupt(m, n) =>
      if m.line.rx != [] {
        var got :| RecvIrqPops(m, got, n);
      }
      if m.line.tx == [] && n.requested > 0 && Unsent(Last(n.sends)) != 0 {
        var k: nat :| SendIrqPushes(n, k, s');
      }
    case ResetFifos(l) =>
    case SetInterrupt(on) =>
    case ClearStats =>
  }

  /** The last enable or disable decides the interrupt-enable bit; nothing else does. */
  function EnabledBy(acts: seq<Action>): bool {
    if acts == [] then false
    else if Last(acts).SetInterrupt? then Last(acts).on
    else EnabledBy(acts[..|acts| - 1])
  }

  /**
   * In every reachable state: the device never refused an access (no write to a full transmit FIFO, no read
   * of an empty receive FIFO), and the interrupt-enable bit is the application's last choice.
   */
  lemma {:induction false} AccessesSafe(ss: seq<Uart>, acts: seq<Action>, i: nat)
    requires IsRun(ss, acts) && i < |ss|
    ensures ss[i].line.refused == ss[0].line.refused
    ensures ss[i].line.intr == EnabledBy(acts[..i])
  {
    if i > 0 {
      AccessesSafe(ss, acts, i - 1);
      assert StepAt(ss, acts, i - 1);
      StepSafe(ss[i - 1], acts[i - 1], ss[i]);
      assert acts[..i][..i - 1] == acts[..i - 1];
    }
  }

  /** Statistics: each counter equals what the line's histories say since the last clear, and no error
      counter exceeds the characters received. */
  lemma StatisticsExact(ss: seq<Uart>, acts: seq<Action>)
    requires IsRun(ss, acts)
    ensures var s, c := Last(ss), Last(ss).counts;
            && c.charsTx == |s.line.pushed| - s.clearTx && c.charsRx == |s.line.popped| - s.clearRx
            && s.clearRx <= |s.line.errs| && var errs := s.line.errs[s.clearRx..];
            && c.overrun == Tally(errs, Overrun) <= c.charsRx
            && c.parity == Tally(errs, Parity) <= c.charsRx
            && c.framing == Tally(errs, Framing) <= c.charsRx
  {
    RunInv(ss, acts, |acts|);
  }
}
