/** What every step of the UART driver keeps. */
module UartInvariants {
  import opened UartRegisters
  import opened UartLine
  import opened UartSpec
  import opened Basics

  // ---- Steps cut at the points where the driver's bookkeeping changes ----

  datatype Part =
    LineMoves | LineReset | Clear | Opens(data: seq<Byte>) | Asks(before: seq<Byte>, size: nat) | Takes | Gives

  ghost predicate PartStep(s: Uart, p: Part, s': Uart) {
    match p
    case LineMoves => Exchange(s.line, s'.line, [], []) && s' == s.(line := s'.line)
    case LineReset => s' == s.(line := Cleared(s.line))
    case Clear => Next(s, ClearStats, s')
    case Opens(data) => SendStep(s, data, s')
    case Asks(before, size) => RecvStep(s, before, size, s')
    case Takes => RecvIrq(s, s')
    case Gives => s.line.tx == [] && s.requested > 0 && SendIrq(s, s')
  }

  // ---- Line ----

  lemma LineKept(s: Uart, p: Part, s': Uart)
    requires LineInv(s.line) && PartStep(s, p, s')
    ensures LineInv(s'.line)
  {
    match p
    case LineMoves => ExchangeKeepsInv(s.line, s'.line, [], []);
    case LineReset =>
    case Clear =>
    case Opens(data) =>
      var k: nat :| SendPushes(s, data, k, s');
      ExchangeKeepsInv(s.line, s'.line, data[..k], []);
    case Asks(before, size) =>
      var got :| RecvPops(s, before, size, got, s');
      ExchangeKeepsInv(s.line, s'.line, [], got);
    case Takes =>
      var got :| RecvIrqPops(s, got, s');
      if Missing(Last(s.recvs)) != 0 {
        ExchangeKeepsInv(s.line, s'.line, [], got);
      }
    case Gives =>
      var q := Last(s.sends);
      if Unsent(q) != 0 {
        var k: nat :| SendIrqPushes(s, k, s');
        ExchangeKeepsInv(s.line, s'.line, q.data[q.pushed..][..k], []);
      }
  }

  // ---- The transmit stream ----

  predicate SendOk(q: SendSession) { q.pushed <= |q.data| }

  /** The bytes a session has pushed. */
  function Piece(q: SendSession): seq<Byte> {
    if SendOk(q) then q.data[..q.pushed] else []
  }

  /** The pushed prefixes of all Send sessions, one after another. */
  function Stream(sends: seq<SendSession>): seq<Byte> {
    if sends == [] then [] else Stream(sends[..|sends| - 1]) + Piece(Last(sends))
  }

  ghost predicate StreamInv(s: Uart) {
    && s.sends != [] && (forall i :: 0 <= i < |s.sends| ==> SendOk(s.sends[i]))
    && s.bootTx <= |s.line.pushed| && s.line.pushed[s.bootTx..] == Stream(s.sends)
    && Last(s.sends).start + Last(s.sends).pushed == |s.line.pushed| && s.bootTx <= Last(s.sends).start
    && (s.requested == |Last(s.sends).data| || (s.requested == 0 && Unsent(Last(s.sends)) == 0))
  }

  /** Replacing the last session changes the stream only in its last piece. */
  lemma StreamSetLast(sends: seq<SendSession>, q: SendSession)
    requires sends != []
    ensures Stream(SetLast(sends, q)) == Stream(sends[..|sends| - 1]) + Piece(q)
  {
    var t := SetLast(sends, q);
    assert t[..|t| - 1] == sends[..|sends| - 1];
  }

  lemma StreamAppend(sends: seq<SendSession>, q: SendSession)
    ensures Stream(sends + [q]) == Stream(sends) + Piece(q)
  {
    assert (sends + [q])[..|sends|] == sends;
  }

  /** The current session's bytes are the tail of what was pushed. */
  lemma CurrentIsTail(s: Uart)
    requires StreamInv(s)
    ensures var q := Last(s.sends);
            && SendOk(q)
            && q.start + q.pushed == |s.line.pushed| && s.line.pushed[q.start..] == q.data[..q.pushed]
  {
    var q, front := Last(s.sends), s.sends[..|s.sends| - 1];
    assert SendOk(s.sends[|s.sends| - 1]);
    assert Piece(q) == q.data[..q.pushed];
    assert s.line.pushed[s.bootTx..] == Stream(front) + q.data[..q.pushed];
    assert s.line.pushed[q.start..] == s.line.pushed[s.bootTx..][|Stream(front)|..];
  }

  lemma StreamKept(s: Uart, p: Part, s': Uart)
    requires StreamInv(s) && PartStep(s, p, s')
    ensures StreamInv(s')
  {
    match p
    case LineMoves => assert s'.line.pushed == s.line.pushed;
    case LineReset =>
    case Clear =>
    case Opens(data) =>
      var k: nat :| SendPushes(s, data, k, s');
      StreamOpens(s, data, k, s');
    case Asks(before, size) =>
      var got :| RecvPops(s, before, size, got, s');
      assert s'.line.pushed == s.line.pushed;
    case Takes =>
      var got :| RecvIrqPops(s, got, s');
      assert s'.line.pushed == s.line.pushed;
    case Gives =>
      var q := Last(s.sends);
      if Unsent(q) != 0 {
        var k: nat :| SendIrqPushes(s, k, s');
        StreamPushesMore(s, k, s');
      }
  }

  lemma StreamOpens(s: Uart, data: seq<Byte>, k: nat, s': Uart)
    requires StreamInv(s) && SendPushes(s, data, k, s')
    ensures StreamInv(s')
  {
    StreamAppend(s.sends, Last(s'.sends));
    assert s'.line.pushed[s.bootTx..] == s.line.pushed[s.bootTx..] + data[..k];
  }

  lemma StreamPushesMore(s: Uart, k: nat, s': Uart)
    requires StreamInv(s) && SendIrqPushes(s, k, s') && s.requested > 0
    ensures StreamInv(s')
  {
    var q := Last(s.sends);
    var more := q.data[q.pushed..][..k];
    StreamSetLast(s.sends, Last(s'.sends));
    StreamGrows(s.sends, Last(s'.sends), k);
    assert s'.line.pushed[s.bootTx..] == s.line.pushed[s.bootTx..] + more;
  }

  lemma StreamGrows(sends: seq<SendSession>, q': SendSession, k: nat)
    requires sends != []
    requires var q := Last(sends); q.pushed + k <= |q.data| && q'.data == q.data && q'.pushed == q.pushed + k
    ensures Stream(SetLast(sends, q')) == Stream(sends) + Last(sends).data[Last(sends).pushed..][..k]
  {
    var q, front, more := Last(sends), sends[..|sends| - 1], Last(sends).data[Last(sends).pushed..][..k];
    StreamSetLast(sends, q');
    PieceGrows(q, q', k);
    assert Stream(front) + (Piece(q) + more) == (Stream(front) + Piece(q)) + more;
  }

  lemma PieceGrows(q: SendSession, q': SendSession, k: nat)
    requires q.pushed + k <= |q.data| && q'.data == q.data && q'.pushed == q.pushed + k
    ensures Piece(q') == Piece(q) + q.data[q.pushed..][..k]
  {
  }

  // ---- The receive stream ----

  ghost predicate RecvOk(q: RecvSession) { |q.stored| <= q.size <= |q.before| }

  /** The bytes stored by all Recv sessions, one after another. */
  ghost function Stored(recvs: seq<RecvSession>): seq<Byte> {
    if recvs == [] then [] else Stored(recvs[..|recvs| - 1]) + Last(recvs).stored
  }

  ghost predicate RecvInv(s: Uart) {
    && s.recvs != [] && (forall i :: 0 <= i < |s.recvs| ==> RecvOk(s.recvs[i]))
    && s.bootRx <= |s.line.popped| && s.line.popped[s.bootRx..] == Stored(s.recvs)
  }

  lemma RecvKept(s: Uart, p: Part, s': Uart)
    requires RecvInv(s) && PartStep(s, p, s')
    ensures RecvInv(s')
  {
    match p
    case LineMoves =>
    case LineReset =>
    case Clear =>
    case Opens(data) => var k: nat :| SendPushes(s, data, k, s');
    case Asks(before, size) =>
      var got :| RecvPops(s, before, size, got, s');
      assert s'.recvs[..|s.recvs|] == s.recvs;
      assert s'.line.popped[s.bootRx..] == s.line.popped[s.bootRx..] + got;
    case Takes =>
      var got :| RecvIrqPops(s, got, s');
      var q, front := Last(s.recvs), s.recvs[..|s.recvs| - 1];
      assert s'.recvs[..|s'.recvs| - 1] == front;
      assert s'.line.popped[s.bootRx..] == s.line.popped[s.bootRx..] + got;
      assert Stored(s'.recvs) == Stored(front) + (q.stored + got);
    case Gives =>
      if Unsent(Last(s.sends)) != 0 {
        var k: nat :| SendIrqPushes(s, k, s');
      }
  }

  // ---- Callbacks ----

  /** What a logged callback says about its session. */
  ghost predicate CallOk(s: Uart, c: Callback) {
    match c
    case SendDone(i, arg, wired, intact) =>
      && i < |s.sends|
      && arg == |s.sends[i].data| == s.sends[i].pushed && arg > 0
      && wired <= |s.line.wire|
      && (intact ==> arg <= wired && s.line.wire[wired - arg..wired] == s.sends[i].data)
    case RecvDone(i, arg) =>
      i < |s.recvs| && arg == s.recvs[i].size == |s.recvs[i].stored|
  }

  ghost predicate WasReported(calls: seq<Callback>, session: nat) {
    exists j :: 0 <= j < |calls| && calls[j].SendDone? && calls[j].session == session
  }

  ghost predicate CallInv(s: Uart) {
    && s.sends != [] && s.recvs != []
    && (forall j :: 0 <= j < |s.calls| ==> CallOk(s, s.calls[j]))
    && (forall j, k :: 0 <= j < k < |s.calls| && s.calls[j].SendDone? && s.calls[k].SendDone? ==>
          s.calls[j].session < s.calls[k].session)
    && (s.requested > 0 ==>
          forall j :: 0 <= j < |s.calls| && s.calls[j].SendDone? ==> s.calls[j].session < |s.sends| - 1)
    && (s.requested == 0 && Last(s.sends).data != [] ==> WasReported(s.calls, |s.sends| - 1))
  }

  lemma ReportsLast(calls: seq<Callback>, more: seq<Callback>, session: nat)
    requires WasReported(calls, session) && calls <= more
    ensures WasReported(more, session)
  {
    var j :| 0 <= j < |calls| && calls[j].SendDone? && calls[j].session == session;
    assert more[j] == calls[j];
  }

  /** A logged callback stays right while histories and session lists only grow. */
  lemma CallStays(s: Uart, s': Uart, c: Callback)
    requires CallOk(s, c)
    requires s.line.wire <= s'.line.wire
    requires |s.sends| <= |s'.sends| && |s.recvs| <= |s'.recvs|
    requires c.SendDone? ==>
      s'.sends[c.session].data == s.sends[c.session].data && s'.sends[c.session].pushed == s.sends[c.session].pushed
    requires c.RecvDone? ==>
      s'.recvs[c.session].size == s.recvs[c.session].size && s'.recvs[c.session].stored == s.recvs[c.session].stored
    ensures CallOk(s', c)
  {
    if c.SendDone? && c.intact {
      assert s'.line.wire[c.wired - c.arg..c.wired] == s.line.wire[c.wired - c.arg..c.wired];
    }
  }

  /** When SendDataHandler reports a session no reset has touched, the wire ends with exactly its bytes. */
  lemma ReportedIsOnWire(s: Uart)
    requires LineInv(s.line) && StreamInv(s) && s.line.tx == []
    requires var q := Last(s.sends); Unsent(q) == 0 && s.line.txCut <= q.start
    ensures var q := Last(s.sends);
            |q.data| <= |s.line.wire| && s.line.wire[|s.line.wire| - |q.data|..] == q.data
  {
    var q, l := Last(s.sends), s.line;
    CurrentIsTail(s);
    assert l.pushed[q.start..] == l.pushed[l.txCut..][q.start - l.txCut..];
    assert l.wire[l.wireCut..][q.start - l.txCut..] == l.wire[l.wireCut + (q.start - l.txCut)..];
    assert q.data == q.data[..q.pushed];
  }

  /** The old callbacks survive a step that changes no reported session. */
  lemma CallsCarryOver(s: Uart, s': Uart)
    requires CallInv(s)
    requires s.line.wire <= s'.line.wire && |s.sends| <= |s'.sends| && |s.recvs| <= |s'.recvs|
    requires forall i :: 0 <= i < |s.sends| && (i < |s.sends| - 1 || Unsent(s.sends[i]) == 0) ==>
      s'.sends[i].data == s.sends[i].data && s'.sends[i].pushed == s.sends[i].pushed
    requires forall i :: 0 <= i < |s.recvs| && Missing(s.recvs[i]) == 0 ==>
      s'.recvs[i].size == s.recvs[i].size && s'.recvs[i].stored == s.recvs[i].stored
    ensures forall j :: 0 <= j < |s.calls| ==> CallOk(s', s.calls[j])
  {
    forall j | 0 <= j < |s.calls| ensures CallOk(s', s.calls[j]) {
      assert CallOk(s, s.calls[j]);
      CallStays(s, s', s.calls[j]);
    }
  }

  lemma CallKept(s: Uart, p: Part, s': Uart)
    requires LineInv(s.line) && StreamInv(s) && RecvInv(s) && CallInv(s) && PartStep(s, p, s')
    ensures CallInv(s')
  {
    match p
    case LineMoves => CallsCarryOver(s, s');
    case LineReset => CallsCarryOver(s, s');
    case Clear => CallsCarryOver(s, s');
    case Opens(data) =>
      var k: nat :| SendPushes(s, data, k, s');
      CallsCarryOver(s, s');
    case Asks(before, size) =>
      var got :| RecvPops(s, before, size, got, s');
      CallsCarryOver(s, s');
    case Takes =>
      var got :| RecvIrqPops(s, got, s');
      CallsTaking(s, got, s');
    case Gives => CallsGiving(s, s');
  }

  lemma CallsTaking(s: Uart, got: seq<Byte>, s': Uart)
    requires RecvInv(s) && CallInv(s) && RecvIrqPops(s, got, s')
    ensures CallInv(s')
  {
    CallsCarryOver(s, s');
    if s'.calls != s.calls {
      assert CallOk(s', Last(s'.calls));
    }
    if s.requested == 0 && Last(s.sends).data != [] {
      ReportsLast(s.calls, s'.calls, |s.sends| - 1);
    }
  }

  lemma CallsGiving(s: Uart, s': Uart)
    requires LineInv(s.line) && StreamInv(s) && CallInv(s)
    requires s.line.tx == [] && s.requested > 0 && SendIrq(s, s')
    ensures CallInv(s')
  {
    CurrentIsTail(s);
    var q := Last(s.sends);
    if Unsent(q) != 0 {
      var k: nat :| SendIrqPushes(s, k, s');
      CallsCarryOver(s, s');
    } else {
      CallsCarryOver(s, s');
      if s.line.txCut <= q.start {
        ReportedIsOnWire(s);
      }
      assert CallOk(s', Last(s'.calls));
      assert s'.calls[|s.calls|].session == |s.sends| - 1;
    }
  }

  // ---- Statistics ----

  /** Every counter is what the histories say since the last clear. */
  ghost predicate StatInv(s: Uart) {
    && s.clearTx <= |s.line.pushed| && s.clearRx <= |s.line.popped| == |s.line.errs|
    && s.counts.charsTx == |s.line.pushed| - s.clearTx
    && s.counts.charsRx == |s.line.popped| - s.clearRx
    && var errs := s.line.errs[s.clearRx..];
       && s.counts.overrun == Tally(errs, Overrun)
       && s.counts.parity == Tally(errs, Parity)
       && s.counts.framing == Tally(errs, Framing)
  }

  lemma {:induction false} TallyConcat(a: seq<Errors>, b: seq<Errors>, k: Kind)
    ensures Tally(a + b, k) == Tally(a, k) + Tally(b, k)
  {
    if b == [] {
      assert a + b == a;
    } else {
      assert (a + b)[..|a + b| - 1] == a + b[..|b| - 1];
      TallyConcat(a, b[..|b| - 1], k);
    }
  }

  lemma TallyOne(e: Errors)
    ensures Tally([e], Overrun) == (if e.overrun then 1 else 0)
    ensures Tally([e], Parity) == (if e.parity then 1 else 0)
    ensures Tally([e], Framing) == (if e.framing then 1 else 0)
  {
    assert [e][..0] == [];
  }

  /** New error records add to the counters exactly what Charged charges. */
  lemma ChargedIsTally(l: Line, m: Line, clear: nat)
    requires clear <= |l.errs| && l.errs <= m.errs
    ensures forall k: Kind ::
      Tally(m.errs[clear..], k) == Tally(l.errs[clear..], k) + Tally(m.errs[|l.errs|..], k)
  {
    assert m.errs[clear..] == l.errs[clear..] + m.errs[|l.errs|..];
    forall k: Kind ensures Tally(m.errs[clear..], k) == Tally(l.errs[clear..], k) + Tally(m.errs[|l.errs|..], k) {
      TallyConcat(l.errs[clear..], m.errs[|l.errs|..], k);
    }
  }

  lemma StatKept(s: Uart, p: Part, s': Uart)
    requires LineInv(s.line) && StatInv(s) && PartStep(s, p, s')
    ensures StatInv(s')
  {
    match p
    case LineMoves => assert s'.line.errs == s.line.errs;
    case LineReset =>
    case Clear => assert s'.line.errs[s'.clearRx..] == [];
    case Opens(data) =>
      var k: nat :| SendPushes(s, data, k, s');
      assert s'.line.errs == s.line.errs;
    case Asks(before, size) =>
      var got :| RecvPops(s, before, size, got, s');
      ChargedIsTally(s.line, s'.line, s.clearRx);
    case Takes =>
      var got :| RecvIrqPops(s, got, s');
      ChargedIsTally(s.line, s'.line, s.clearRx);
    case Gives =>
      if Unsent(Last(s.sends)) != 0 {
        var k: nat :| SendIrqPushes(s, k, s');
        assert s'.line.errs == s.line.errs;
      }
  }

  // ---- Together ----

  ghost predicate Inv(s: Uart) {
    LineInv(s.line) && StreamInv(s) && RecvInv(s) && CallInv(s) && StatInv(s)
  }

  lemma InitInv(s: Uart)
    requires Init(s)
    ensures Inv(s)
  {
    assert Stream(s.sends[..0]) == [];
    assert Stored(s.recvs) == [];
    assert s.line.errs[s.clearRx..] == [];
  }

  lemma PartKeepsInv(s: Uart, p: Part, s': Uart)
    requires Inv(s) && PartStep(s, p, s')
    ensures Inv(s')
  {
    LineKept(s, p, s');
    StreamKept(s, p, s');
    RecvKept(s, p, s');
    CallKept(s, p, s');
    StatKept(s, p, s');
  }

  /** The receive half of the handler pushes nothing, so an empty transmit FIFO stays empty through it. */
  lemma TakingLeavesTxEmpty(m: Uart, n: Uart)
    requires m.line.tx == [] && RecvIrq(m, n)
    ensures n.line.tx == []
  {
    var got :| RecvIrqPops(m, got, n);
    if Missing(Last(m.recvs)) != 0 {
      assert |n.line.wire| + |n.line.tx| == |m.line.wire|;
    }
  }

  lemma NextKeepsInv(s: Uart, a: Action, s': Uart)
    requires Inv(s) && Next(s, a, s')
    ensures Inv(s')
  {
    match a
    case Hardware => PartKeepsInv(s, LineMoves, s');
    case Send(data) => PartKeepsInv(s, Opens(data), s');
    case Recv(before, size) => PartKeepsInv(s, Asks(before, size), s');
    case Interrupt(m, n) =>
      PartKeepsInv(s, LineMoves, m);
      if m.line.rx != [] {
        PartKeepsInv(m, Takes, n);
        if m.line.tx == [] {
          TakingLeavesTxEmpty(m, n);
        }
      }
      if m.line.tx == [] && n.requested > 0 {
        PartKeepsInv(n, Gives, s');
      }
    case ResetFifos(l) =>
      PartKeepsInv(s, LineMoves, s.(line := l));
      PartKeepsInv(s.(line := l), LineReset, s');
    case SetInterrupt(on) => PartKeepsInv(s, LineMoves, s');
    case ClearStats => PartKeepsInv(s, Clear, s');
  }
}
