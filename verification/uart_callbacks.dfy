/** When the UART driver calls back, and how many interrupts a transfer takes. */
module UartCallbacks {
  import opened UartRegisters
  import opened UartLine
  import opened UartSpec
  import opened Basics
  import opened UartInvariants
  import opened UartTheorems

  // ---- SendHandler ----

  /**
   * Send completion, in every run. SendHandler runs at most once per Send, never for an empty one, and always
   * with NumBytes. When it runs for a session no FIFO reset has touched, the wire ends with exactly that
   * session's bytes.
   */
  lemma SendCompletion(ss: seq<Uart>, acts: seq<Action>, j: nat)
    requires IsRun(ss, acts) && j < |Last(ss).calls| && Last(ss).calls[j].SendDone?
    ensures var s, c := Last(ss), Last(ss).calls[j];
            && 0 < c.session < |s.sends|
            && c.arg == |s.sends[c.session].data| > 0 && c.wired <= |s.line.wire|
            && (NoReset(acts, |acts|) ==> c.intact)
            && (c.intact ==> c.arg <= c.wired && s.line.wire[c.wired - c.arg..c.wired] == s.sends[c.session].data)
            && forall k :: 0 <= k < |s.calls| && k != j && s.calls[k].SendDone? ==> s.calls[k].session != c.session
  {
    var i := |acts|;
    assert acts[..i] == acts;
    RunInv(ss, acts, 0);
    RunInv(ss, acts, i);
    if NoReset(acts, i) {
      RunUnreset(ss, acts, i);
    }
    assert CallOk(ss[i], ss[i].calls[j]);
    FirstSessionEmpty(ss, acts, i);
  }

  lemma FirstSessionEmpty(ss: seq<Uart>, acts: seq<Action>, i: nat)
    requires IsRun(ss, acts) && i < |ss|
    ensures ss[i].sends != [] && ss[i].sends[0].data == []
  {
    SessionsAreSends(ss, acts, i);
    DatasFirst(ss[i].sends);
  }

  lemma {:induction false} DatasFirst(sends: seq<SendSession>)
    requires sends != []
    ensures |Datas(sends)| == |sends| && Datas(sends)[0] == sends[0].data
  {
    if |sends| == 1 {
      assert sends[..0] == [];
    } else {
      DatasFirst(sends[..|sends| - 1]);
    }
  }

  /** No reset has flushed a byte of session i, and its report says so. */
  ghost predicate Spared(i: nat, s: Uart) {
    && i < |s.sends| && s.line.txCut <= s.sends[i].start
    && forall j :: 0 <= j < |s.calls| && s.calls[j].SendDone? && s.calls[j].session == i ==> s.calls[j].intact
  }

  lemma SparedOpens(s: Uart, a: Action, s': Uart)
    requires Inv(s) && Next(s, a, s') && a.Send?
    ensures Spared(|s.sends|, s')
  {
    var k: nat :| SendPushes(s, a.data, k, s');
    forall j | 0 <= j < |s.calls| && s.calls[j].SendDone? ensures s.calls[j].session < |s.sends| {
      assert CallOk(s, s.calls[j]);
    }
  }

  /** The sessions' starts do not change, and a new report is intact if no reset has come after the start. */
  ghost predicate SparesReports(s: Uart, s': Uart) {
    && |s.sends| <= |s'.sends| && (forall i :: 0 <= i < |s.sends| ==> s'.sends[i].start == s.sends[i].start)
    && s.calls <= s'.calls
    && forall j :: |s.calls| <= j < |s'.calls| && s'.calls[j].SendDone? ==>
         s'.calls[j].session < |s.sends|
         && (s.line.txCut <= s.sends[s'.calls[j].session].start ==> s'.calls[j].intact)
  }

  lemma ReportsSpared(s: Uart, a: Action, s': Uart)
    requires s.sends != [] && Next(s, a, s')
    ensures SparesReports(s, s')
  {
    match a
    case Send(data) => var k: nat :| SendPushes(s, data, k, s');
    case Recv(before, size) => var got :| RecvPops(s, before, size, got, s');
    case Interrupt(m, n) =>
      if m.line.rx != [] {
        var got :| RecvIrqPops(m, got, n);
      }
      if Enters(a) {
        GivingSpares(n, s');
      }
    case _ =>
  }

  lemma GivingSpares(n: Uart, s': Uart)
    requires SendIrq(n, s')
    ensures SparesReports(n, s')
  {
    if Unsent(Last(n.sends)) != 0 {
      var k: nat :| SendIrqPushes(n, k, s');
    }
  }

  lemma SparedKept(i: nat, s: Uart, a: Action, s': Uart)
    requires Spared(i, s) && Inv(s) && Next(s, a, s') && !a.ResetFifos?
    ensures Spared(i, s')
  {
    StepUnreset(s, a, s');
    ReportsSpared(s, a, s');
  }

  /** Resets before a Send, or after its report, do no harm: the report is intact, so SendCompletion's claim
      about the wire holds. */
  lemma {:induction false} SparedSinceSend(ss: seq<Uart>, acts: seq<Action>, a: nat, b: nat)
    requires IsRun(ss, acts) && a < b < |ss| && acts[a].Send?
    requires forall i :: a < i < b ==> !acts[i].ResetFifos?
    ensures Spared(|ss[a].sends|, ss[b])
  {
    RunInv(ss, acts, b - 1);
    assert StepAt(ss, acts, b - 1);
    if b == a + 1 {
      SparedOpens(ss[a], acts[a], ss[b]);
    } else {
      SparedSinceSend(ss, acts, a, b - 1);
      SparedKept(|ss[a].sends|, ss[b - 1], acts[b - 1], ss[b]);
    }
  }

  // ---- The transmit-interrupt bound ----

  /** The number of FIFO loads n bytes need. */
  function Loads(n: nat): nat { (n + 15) / 16 }

  /** How often SendDataHandler may run for a Send of n bytes that left `left` of them unsent. */
  function EntryBound(n: nat, left: nat): nat {
    if n == 0 then 0 else Loads(left) + 1
  }

  /** What is left to send; right after a Send, what that Send did not itself put into the FIFO. */
  function Left(s: Uart): nat {
    if s.sends != [] && SendOk(Last(s.sends)) then Unsent(Last(s.sends)) else 0
  }

  /** The handler call enters SendDataHandler. */
  ghost predicate Enters(a: Action) {
    a.Interrupt? && a.sampled.line.tx == [] && a.received.requested > 0
  }

  /** The handler call enters ReceiveDataHandler. */
  ghost predicate Finds(a: Action) {
    a.Interrupt? && a.sampled.line.rx != []
  }

  ghost function Entries(acts: seq<Action>): nat {
    if acts == [] then 0 else Entries(acts[..|acts| - 1]) + (if Enters(Last(acts)) then 1 else 0)
  }

  /** SendDataHandler has run n times for the current session. Every entry either loads the FIFO again or is
      the last one, so the entries so far and those still to come stay within the bound. */
  ghost predicate Owing(bound: nat, n: nat, s: Uart) {
    && s.sends != [] && n <= bound
    && (s.requested > 0 ==> Unsent(Last(s.sends)) >= 0 && n + Loads(Unsent(Last(s.sends))) + 1 <= bound)
  }

  /** What a Send leaves unsent. If it found the FIFO empty, it loaded it once. */
  lemma SendOwes(s: Uart, a: Action, s': Uart)
    requires a.Send? && Next(s, a, s')
    ensures s'.sends != [] && s'.counts.txIntr == s.counts.txIntr
    ensures var n, bound := |a.data|, EntryBound(|a.data|, Left(s'));
            && Left(s') <= n && Owing(bound, 0, s')
            && (n > 0 ==> bound <= Loads(n) + (if s.line.tx == [] then 0 else 1))
  {
    var k: nat :| SendPushes(s, a.data, k, s');
    FillsAtLeast(s.line, s'.line, a.data, k);
  }

  lemma EntryCounted(s: Uart, a: Action, s': Uart)
    requires s.sends != [] && Next(s, a, s') && !a.ClearStats?
    ensures s'.counts.txIntr == s.counts.txIntr + (if Enters(a) then 1 else 0)
    ensures s'.counts.rxIntr == s.counts.rxIntr + (if Finds(a) then 1 else 0)
  {
    match a
    case Send(data) => var k: nat :| SendPushes(s, data, k, s');
    case Recv(before, size) => var got :| RecvPops(s, before, size, got, s');
    case Interrupt(m, n) =>
      if m.line.rx != [] {
        var got :| RecvIrqPops(m, got, n);
      }
      if Enters(a) && Unsent(Last(n.sends)) != 0 {
        var k: nat :| SendIrqPushes(n, k, s');
      }
    case _ =>
  }

  /** Calls since the counters were last cleared. */
  ghost function EntriesSinceClear(acts: seq<Action>): nat {
    if acts == [] || Last(acts).ClearStats? then 0
    else EntriesSinceClear(Front(acts)) + (if Enters(Last(acts)) then 1 else 0)
  }

  ghost function FindsSinceClear(acts: seq<Action>): nat {
    if acts == [] || Last(acts).ClearStats? then 0
    else FindsSinceClear(Front(acts)) + (if Finds(Last(acts)) then 1 else 0)
  }

  /** In every run the interrupt counters are the entries into the two data handlers since the last clear. */
  lemma {:induction false} InterruptsExact(ss: seq<Uart>, acts: seq<Action>, i: nat)
    requires IsRun(ss, acts) && i < |ss|
    ensures ss[i].counts.txIntr == EntriesSinceClear(acts[..i])
    ensures ss[i].counts.rxIntr == FindsSinceClear(acts[..i])
  {
    if i > 0 {
      InterruptsExact(ss, acts, i - 1);
      RunInv(ss, acts, i - 1);
      assert StepAt(ss, acts, i - 1);
      assert Front(acts[..i]) == acts[..i - 1] && Last(acts[..i]) == acts[i - 1];
      if !acts[i - 1].ClearStats? {
        EntryCounted(ss[i - 1], acts[i - 1], ss[i]);
      }
    }
  }

  /** SendDataHandler finds the FIFO empty, so it pushes a full load, the rest, or reports. */
  lemma EntryPays(bound: nat, n: nat, s: Uart, s': Uart)
    requires Owing(bound, n, s) && s.line.tx == [] && s.requested > 0 && SendIrq(s, s')
    ensures Owing(bound, n + 1, s')
  {
    var left := Unsent(Last(s.sends));
    if left != 0 {
      var k: nat :| SendIrqPushes(s, k, s');
      FillsAtLeast(s.line, s'.line, Last(s.sends).data[Last(s.sends).pushed..], k);
      assert Loads(left - k) + 1 <= Loads(left);
    }
  }

  lemma OwingKept(bound: nat, n: nat, s: Uart, a: Action, s': Uart)
    requires Owing(bound, n, s) && Next(s, a, s') && !a.Send?
    ensures Owing(bound, n + (if Enters(a) then 1 else 0), s')
  {
    match a
    case Recv(before, size) => var got :| RecvPops(s, before, size, got, s');
    case Interrupt(m, r) =>
      if m.line.rx != [] {
        var got :| RecvIrqPops(m, got, r);
        if m.line.tx == [] {
          TakingLeavesTxEmpty(m, r);
        }
      }
      if Enters(a) {
        EntryPays(bound, n, r, s');
      }
    case _ =>
  }

  lemma EntriesExtend(acts: seq<Action>, i: nat, j: nat)
    requires i <= j < |acts|
    ensures Entries(acts[i..j + 1]) == Entries(acts[i..j]) + (if Enters(acts[j]) then 1 else 0)
  {
    assert acts[i..j + 1][..j - i] == acts[i..j];
  }

  /** From just after a step `a` that is a Send up to b there is no other Send and no clearing of the counters. */
  ghost predicate OneSend(ss: seq<Uart>, acts: seq<Action>, a: nat, b: nat) {
    && IsRun(ss, acts) && a < b < |ss| && acts[a].Send?
    && forall i :: a < i < b ==> !acts[i].Send? && !acts[i].ClearStats?
  }

  lemma {:induction false} EntriesSinceSend(ss: seq<Uart>, acts: seq<Action>, a: nat, b: nat)
    requires OneSend(ss, acts, a, b)
    ensures Owing(EntryBound(|acts[a].data|, Left(ss[a + 1])), Entries(acts[a + 1..b]), ss[b])
    ensures ss[b].counts.txIntr == ss[a].counts.txIntr + Entries(acts[a + 1..b])
    ensures |ss[b].sends| == |ss[a].sends| + 1 && Last(ss[b].sends).data == acts[a].data
  {
    assert StepAt(ss, acts, b - 1);
    if b == a + 1 {
      SendOwes(ss[a], acts[a], ss[b]);
      assert acts[a + 1..b] == [];
    } else {
      EntriesSinceSend(ss, acts, a, b - 1);
      EntriesExtend(acts, a + 1, b - 1);
      EntryCounted(ss[b - 1], acts[b - 1], ss[b]);
      SendsKept(ss[b - 1], acts[b - 1], ss[b]);
      OwingKept(EntryBound(|acts[a].data|, Left(ss[a + 1])), Entries(acts[a + 1..b - 1]),
                ss[b - 1], acts[b - 1], ss[b]);
    }
  }

  /**
   * Transmit-interrupt bound. Between one Send of n bytes, which itself puts all but `left` of them into the
   * FIFO, and the next, whatever the schedule of handler calls, the transmit-interrupt counter grows by at
   * most ceil(left/16) + 1; not at all if n is 0. That is at most ceil(n/16), plus one if the transmit FIFO
   * was not empty at the Send.
   */
  lemma TransmitInterruptBound(ss: seq<Uart>, acts: seq<Action>, a: nat, b: nat)
    requires OneSend(ss, acts, a, b)
    ensures var n, bound := |acts[a].data|, EntryBound(|acts[a].data|, Left(ss[a + 1]));
            && 0 <= ss[b].counts.txIntr - ss[a].counts.txIntr <= bound
            && (n > 0 ==> bound <= Loads(n) + (if ss[a].line.tx == [] then 0 else 1))
  {
    EntriesSinceSend(ss, acts, a, b);
    assert StepAt(ss, acts, a);
    SendOwes(ss[a], acts[a], ss[a + 1]);
  }

  /**
   * Completion in time. The bound is also when the transfer is over: once SendDataHandler has run that often
   * for a Send, every byte has been pushed and SendHandler has been called for it.
   */
  lemma SendCompletes(ss: seq<Uart>, acts: seq<Action>, a: nat, b: nat)
    requires OneSend(ss, acts, a, b) && acts[a].data != []
    requires ss[b].counts.txIntr - ss[a].counts.txIntr >= EntryBound(|acts[a].data|, Left(ss[a + 1]))
    ensures |ss[b].sends| == |ss[a].sends| + 1 && Unsent(Last(ss[b].sends)) == 0
    ensures WasReported(ss[b].calls, |ss[a].sends|)
  {
    EntriesSinceSend(ss, acts, a, b);
    RunInv(ss, acts, b);
  }

  // The bound is attained.

  /** All of the transmit FIFO leaves on the wire. */
  function DrainedAll(s: Uart): Uart {
    s.(line := s.line.(wire := s.line.wire + s.line.tx, tx := []))
  }

  lemma DrainsAll(s: Uart)
    requires LineInv(s.line)
    ensures Next(s, Hardware, DrainedAll(s))
  {
    HardwareIsQuiet(s.line, 0);
  }

  /** SendDataHandler at an empty FIFO, no byte leaving meanwhile. */
  function Loaded(s: Uart): Uart
    requires s.sends != [] && SendOk(Last(s.sends))
  {
    var q, left := Last(s.sends), Unsent(Last(s.sends));
    if left == 0 then Reported(s)
    else
      var k := if left < FIFO_SIZE then left else FIFO_SIZE;
      var more := q.data[q.pushed..][..k];
      s.(line := s.line.(tx := more, pushed := s.line.pushed + more),
         sends := SetLast(s.sends, q.(pushed := q.pushed + k)),
         counts := s.counts.(charsTx := s.counts.charsTx + k, txIntr := s.counts.txIntr + 1))
  }

  lemma LoadsOnce(s: Uart)
    requires LineInv(s.line) && s.sends != [] && SendOk(Last(s.sends)) && s.line.tx == []
    ensures SendIrq(s, Loaded(s))
  {
    var q, left := Last(s.sends), Unsent(Last(s.sends));
    if left > 0 {
      var k: nat := if left < FIFO_SIZE then left else FIFO_SIZE;
      LoadFills(s.line, q.data[q.pushed..], k);
      assert SendIrqPushes(s, k, Loaded(s));
    }
  }

  lemma LoadFills(l: Line, rest: seq<Byte>, k: nat)
    requires LineInv(l) && l.tx == [] && k <= |rest| && k <= FIFO_SIZE && (k == |rest| || k == FIFO_SIZE)
    ensures Fills(l, l.(tx := rest[..k], pushed := l.pushed + rest[..k]), rest, k)
  {
    var m := l.(tx := rest[..k], pushed := l.pushed + rest[..k]);
    assert l.wire + rest[..k] == l.wire + l.tx + rest[..k];
    assert l.rx == l.rx + l.accepted[|l.accepted|..];
    HardwareIsQuiet(m, 0);
    assert k == FIFO_SIZE ==> FullAt(l, m, m, rest[..k]);
  }

  /** The receive FIFO with its first k bytes read, none of them in error. */
  function TakenFrom(l: Line, k: nat): Line
    requires k <= |l.rx|
  {
    l.(rx := l.rx[k..], popped := l.popped + l.rx[..k], errs := l.errs + seq(k, i => Errors(false, false, false)))
  }

  lemma TakesFrom(l: Line, want: nat, k: nat)
    requires LineInv(l) && k <= |l.rx| && k <= want && (k == want || k == |l.rx|)
    ensures Empties(l, TakenFrom(l, k), want, l.rx[..k])
  {
    var m := TakenFrom(l, k);
    assert l.rx[..k] + l.rx[k..] == l.rx + l.accepted[|l.accepted|..];
    assert l.wire + l.tx == l.wire + l.tx + [];
    HardwareIsQuiet(m, 0);
    assert k == |l.rx| ==> EmptyAt(l, m, m, l.rx[..k]);
  }

  /** ReceiveDataHandler, no byte arriving or leaving meanwhile. It leaves what is being sent alone. */
  lemma ReceivesOnce(s: Uart) returns (n: Uart)
    requires LineInv(s.line) && RecvInv(s)
    ensures RecvIrq(s, n)
    ensures n.line.tx == s.line.tx && n.sends == s.sends && n.requested == s.requested
    ensures n.counts.txIntr == s.counts.txIntr
  {
    var q := Last(s.recvs);
    assert RecvOk(s.recvs[|s.recvs| - 1]);
    var k: nat := if Missing(q) < |s.line.rx| then Missing(q) else |s.line.rx|;
    var got, l := s.line.rx[..k], TakenFrom(s.line, k);
    TakesFrom(s.line, Missing(q), k);
    if Missing(q) == 0 {
      got, l := [], s.line;
    }
    var q' := q.(stored := q.stored + got);
    var charged := Charged(s.counts, l.errs[|s.line.errs|..]);
    n := s.(line := l, recvs := SetLast(s.recvs, q'),
            calls := if Missing(q') == 0 then s.calls + [RecvDone(|s.recvs| - 1, q.size)] else s.calls,
            counts := charged.(rxIntr := charged.rxIntr + 1));
    assert RecvIrqPops(s, got, n);
  }

  /** A handler call with an empty transmit FIFO, whatever has been received. */
  lemma HandlesOnce(s: Uart) returns (a: Action, s': Uart)
    requires Inv(s) && s.line.tx == [] && s.requested > 0
    ensures a.Interrupt? && Next(s, a, s') && SendOk(Last(s.sends)) && Left(s') == Left(Loaded(s))
    ensures s'.requested == Loaded(s).requested && s'.counts.txIntr == s.counts.txIntr + 1
  {
    assert SendOk(s.sends[|s.sends| - 1]);
    var n := s;
    if s.line.rx != [] {
      n := ReceivesOnce(s);
      LineKept(s, Takes, n);
    }
    LoadsOnce(n);
    a, s' := Interrupt(s, n), Loaded(n);
    HandledOnce(s, n, s');
  }

  lemma HandledOnce(s: Uart, n: Uart, s': Uart)
    requires LineInv(s.line) && s.line.tx == [] && n.requested > 0
    requires (if s.line.rx != [] then RecvIrq(s, n) else n == s) && SendIrq(n, s')
    ensures Next(s, Interrupt(s, n), s')
  {
    HardwareIsQuiet(s.line, 0);
  }

  /** The FIFO runs empty. */
  lemma DrainOut(ss: seq<Uart>, acts: seq<Action>, a: nat) returns (ss': seq<Uart>, acts': seq<Action>)
    requires OneSend(ss, acts, a, |acts|)
    ensures OneSend(ss', acts', a, |acts'|) && ss <= ss' && acts <= acts' && Last(ss') == DrainedAll(Last(ss))
    ensures Inv(Last(ss'))
  {
    var s := Last(ss);
    RunInv(ss, acts, |acts|);
    DrainsAll(s);
    NextKeepsInv(s, Hardware, DrainedAll(s));
    RunExtends(ss, acts, Hardware, DrainedAll(s));
    ss', acts' := ss + [DrainedAll(s)], acts + [Hardware];
  }

  /** And then the handler runs. */
  lemma DrainAndLoad(ss: seq<Uart>, acts: seq<Action>, a: nat) returns (ss': seq<Uart>, acts': seq<Action>)
    requires OneSend(ss, acts, a, |acts|) && Last(ss).requested > 0
    ensures OneSend(ss', acts', a, |acts'|) && ss <= ss' && acts <= acts'
    ensures Last(ss').counts.txIntr == Last(ss).counts.txIntr + 1
    ensures var left := Left(Last(ss));
            && Left(Last(ss')) == (if left < FIFO_SIZE then 0 else left - FIFO_SIZE)
            && (left > 0 ==> Last(ss').requested > 0)
  {
    ss', acts' := DrainOut(ss, acts, a);
    var act, s' := HandlesOnce(Last(ss'));
    RunExtends(ss', acts', act, s');
    ss', acts' := ss' + [s'], acts' + [act];
  }

  lemma {:induction false} RunOut(ss: seq<Uart>, acts: seq<Action>, a: nat) returns (ss': seq<Uart>, acts': seq<Action>)
    requires OneSend(ss, acts, a, |acts|) && Last(ss).requested > 0
    ensures OneSend(ss', acts', a, |acts'|) && ss <= ss' && acts <= acts'
    ensures Last(ss').counts.txIntr == Last(ss).counts.txIntr + Loads(Left(Last(ss))) + 1
    decreases Left(Last(ss))
  {
    ss', acts' := DrainAndLoad(ss, acts, a);
    var left := Left(Last(ss));
    if left > 0 {
      assert Loads(left) == Loads(if left < FIFO_SIZE then 0 else left - FIFO_SIZE) + 1;
      ss', acts' := RunOut(ss', acts', a);
    }
  }

  /** The bound is exact: after any Send of at least one byte there is a schedule that takes that many transmit
      interrupts. */
  lemma BoundAttained(ss: seq<Uart>, acts: seq<Action>) returns (ss': seq<Uart>, acts': seq<Action>)
    requires IsRun(ss, acts) && acts != [] && Last(acts).Send? && Last(acts).data != []
    ensures OneSend(ss', acts', |acts| - 1, |acts'|) && ss <= ss' && acts <= acts'
    ensures Last(ss').counts.txIntr - ss[|acts| - 1].counts.txIntr == EntryBound(|Last(acts).data|, Left(Last(ss)))
  {
    var a := |acts| - 1;
    assert StepAt(ss, acts, a);
    SendOwes(ss[a], acts[a], ss[a + 1]);
    SendRequests(ss[a], acts[a], ss[a + 1]);
    ss', acts' := RunOut(ss, acts, a);
  }

  lemma SendRequests(s: Uart, a: Action, s': Uart)
    requires a.Send? && Next(s, a, s')
    ensures s'.requested == |a.data|
  {
    var k: nat :| SendPushes(s, a.data, k, s');
  }

  // ---- RecvHandler ----

  /** RecvHandler runs only with its buffer full, and its argument is the number of bytes requested. */
  lemma RecvCompletion(ss: seq<Uart>, acts: seq<Action>, j: nat)
    requires IsRun(ss, acts) && j < |Last(ss).calls| && Last(ss).calls[j].RecvDone?
    ensures var s, c := Last(ss), Last(ss).calls[j];
            && c.session < |s.recvs|
            && c.arg == s.recvs[c.session].size == |s.recvs[c.session].stored|
  {
    RunInv(ss, acts, |acts|);
    assert CallOk(Last(ss), Last(ss).calls[j]);
  }

  /** How often RecvHandler has been called for Recv session i. */
  function RecvReports(calls: seq<Callback>, i: nat): nat {
    if calls == [] then 0
    else
      var c := Last(calls);
      RecvReports(calls[..|calls| - 1], i) + (if c.RecvDone? && c.session == i then 1 else 0)
  }

  lemma ReportsAppend(calls: seq<Callback>, c: Callback, i: nat)
    ensures RecvReports(calls + [c], i) == RecvReports(calls, i) + (if c.RecvDone? && c.session == i then 1 else 0)
  {
    assert (calls + [c])[..|calls|] == calls;
  }

  /** The handler call finds received data, with session i current. */
  ghost predicate FindsData(s: Uart, a: Action, i: nat) {
    a.Interrupt? && a.sampled.line.rx != [] && |s.recvs| - 1 == i
  }

  lemma TakingReports(m: Uart, n: Uart, i: nat)
    requires RecvIrq(m, n)
    ensures n.recvs != []
    ensures RecvReports(n.calls, i) ==
            RecvReports(m.calls, i) + (if |m.recvs| - 1 == i && Missing(Last(n.recvs)) == 0 then 1 else 0)
    ensures Missing(Last(m.recvs)) == 0 ==> Missing(Last(n.recvs)) == 0
  {
    var got :| RecvIrqPops(m, got, n);
    ReportsAppend(m.calls, RecvDone(|m.recvs| - 1, Last(m.recvs).size), i);
  }

  lemma GivingReports(n: Uart, s': Uart, i: nat)
    requires SendIrq(n, s')
    ensures RecvReports(s'.calls, i) == RecvReports(n.calls, i)
  {
    var q := Last(n.sends);
    if Unsent(q) == 0 {
      ReportsAppend(n.calls, SendDone(|n.sends| - 1, n.requested, |n.line.wire|, n.line.txCut <= q.start), i);
    } else {
      var k: nat :| SendIrqPushes(n, k, s');
    }
  }

  /** A step calls RecvHandler for session i at most once: exactly if it is a handler call that finds data with i
      current, and i is full after its receive half, whether or not it was full before. */
  lemma StepReports(s: Uart, a: Action, s': Uart, i: nat)
    requires s.recvs != [] && Next(s, a, s')
    ensures var more := RecvReports(s'.calls, i) - RecvReports(s.calls, i);
            && 0 <= more <= 1 && (more == 1 ==> FindsData(s, a, i))
            && (FindsData(s, a, i) ==>
                  && a.received.recvs != [] && (more == 1 <==> Missing(Last(a.received.recvs)) == 0)
                  && (Missing(Last(s.recvs)) == 0 ==> more == 1))
  {
    match a
    case Send(data) => var k: nat :| SendPushes(s, data, k, s');
    case Recv(before, size) => var got :| RecvPops(s, before, size, got, s');
    case Interrupt(m, n) =>
      if m.line.rx != [] {
        TakingReports(m, n, i);
      }
      if Enters(a) {
        GivingReports(n, s', i);
      }
    case _ =>
  }

  lemma {:induction false} ReportedIsFull(s: Uart, calls: seq<Callback>, i: nat)
    requires RecvReports(calls, i) > 0 && forall j :: 0 <= j < |calls| ==> CallOk(s, calls[j])
    ensures i < |s.recvs| && Missing(s.recvs[i]) == 0
  {
    var n := |calls| - 1;
    if calls[n].RecvDone? && calls[n].session == i {
      assert CallOk(s, calls[n]);
    } else {
      ReportedIsFull(s, calls[..n], i);
    }
  }

  /** The handler call at step k finds data that no Recv waits for: the current session has been reported. */
  ghost predicate Unwanted(ss: seq<Uart>, acts: seq<Action>, k: nat, i: nat)
    requires k < |ss| && k < |acts|
  {
    FindsData(ss[k], acts[k], i) && RecvReports(ss[k].calls, i) > 0
  }

  ghost function UnwantedCalls(ss: seq<Uart>, acts: seq<Action>, n: nat, i: nat): nat
    requires n <= |ss| && n <= |acts|
  {
    if n == 0 then 0 else UnwantedCalls(ss, acts, n - 1, i) + (if Unwanted(ss, acts, n - 1, i) then 1 else 0)
  }

  /** How often RecvHandler is called for a session: once if it is ever reported, and once more for every
      handler call that finds data after that. */
  lemma {:induction false} RecvHandlerCalls(ss: seq<Uart>, acts: seq<Action>, n: nat, i: nat)
    requires IsRun(ss, acts) && n < |ss|
    ensures var reports := RecvReports(ss[n].calls, i);
            reports == UnwantedCalls(ss, acts, n, i) + (if reports > 0 then 1 else 0)
  {
    if n > 0 {
      RecvHandlerCalls(ss, acts, n - 1, i);
      RunInv(ss, acts, n - 1);
      assert StepAt(ss, acts, n - 1);
      StepReports(ss[n - 1], acts[n - 1], ss[n], i);
      if Unwanted(ss, acts, n - 1, i) {
        ReportedIsFull(ss[n - 1], ss[n - 1].calls, i);
      }
    }
  }

  lemma {:induction false} NoneUnwanted(ss: seq<Uart>, acts: seq<Action>, n: nat, i: nat)
    requires n <= |ss| && n <= |acts|
    ensures UnwantedCalls(ss, acts, n, i) == 0 <==> forall k: nat :: k < n ==> !Unwanted(ss, acts, k, i)
  {
    if n > 0 {
      NoneUnwanted(ss, acts, n - 1, i);
    }
  }

  /**
   * At most once, exactly. In every run RecvHandler is called at most once for Recv session i if and only if no
   * handler call finds data in the receive FIFO while i is the current session and already reported.
   */
  lemma RecvHandlerOnceExact(ss: seq<Uart>, acts: seq<Action>, i: nat)
    requires IsRun(ss, acts)
    ensures RecvReports(Last(ss).calls, i) <= 1 <==> forall k: nat :: k < |acts| ==> !Unwanted(ss, acts, k, i)
  {
    RecvHandlerCalls(ss, acts, |acts|, i);
    NoneUnwanted(ss, acts, |acts|, i);
  }

  /** RecvHandler is not called at most once per Recv: from every initial state there is a run in which one
      received byte, which no Recv waits for, has it called twice for the same session. */
  lemma RecvHandlerTwice(s0: Uart, b: Byte) returns (ss: seq<Uart>, acts: seq<Action>)
    requires Init(s0) && |s0.line.rx| < FIFO_SIZE
    ensures IsRun(ss, acts) && ss[0] == s0 && ReportedTwice(Last(ss))
  {
    ByteArrives(s0, b);
    TwoMoreCalls(s0.(line := Arrived(s0.line, b)));
    ss, acts := TwiceFrom(s0, s0.(line := Arrived(s0.line, b)));
  }

  ghost predicate ReportedTwice(s: Uart) {
    |s.calls| == 2 && s.calls[0] == s.calls[1] == RecvDone(0, 0)
  }

  lemma TwoMoreCalls(s: Uart)
    requires |s.recvs| == 1 && s.recvs[0].size == 0 && |s.calls| == 0
    ensures ReportedTwice(Renotified(Renotified(s)))
  {
  }

  lemma TwiceFrom(s0: Uart, s1: Uart) returns (ss: seq<Uart>, acts: seq<Action>)
    requires Init(s0) && Next(s0, Hardware, s1) && LineInv(s1.line) && s1.line.rx != []
    requires |s1.recvs| == 1 && s1.recvs[0].size == |s1.recvs[0].stored| == 0 && s1.requested == 0
    ensures IsRun(ss, acts) && ss[0] == s0 && Last(ss) == Renotified(Renotified(s1))
  {
    var s2 := Renotified(s1);
    var s3 := Renotified(s2);
    Again(s1);
    Again(s2);
    ss, acts := RunOfThree(s0, Hardware, s1, Interrupt(s1, s2), s2, Interrupt(s2, s3), s3);
  }

  lemma RunOfThree(s0: Uart, a0: Action, s1: Uart, a1: Action, s2: Uart, a2: Action, s3: Uart)
    returns (ss: seq<Uart>, acts: seq<Action>)
    requires Init(s0) && Next(s0, a0, s1) && Next(s1, a1, s2) && Next(s2, a2, s3)
    ensures IsRun(ss, acts) && ss[0] == s0 && Last(ss) == s3
  {
    ss, acts := [s0], [];
    RunExtends(ss, acts, a0, s1);
    ss, acts := ss + [s1], acts + [a0];
    RunExtends(ss, acts, a1, s2);
    ss, acts := ss + [s2], acts + [a1];
    RunExtends(ss, acts, a2, s3);
    ss, acts := ss + [s3], acts + [a2];
  }

  lemma ByteArrives(s0: Uart, b: Byte)
    requires Init(s0) && |s0.line.rx| < FIFO_SIZE
    ensures var s1 := s0.(line := Arrived(s0.line, b));
            && Next(s0, Hardware, s1) && LineInv(s1.line)
            && s1.line.rx != [] && s1.recvs == [RecvSession([], 0, [])] && s1.requested == 0 && s1.calls == []
  {
    HardwareIsQuiet(s0.line, b);
    ExchangeKeepsInv(s0.line, Arrived(s0.line, b), [], []);
  }

  /** One more RecvHandler call for the current session. */
  function Renotified(s: Uart): Uart
    requires s.recvs != []
  {
    s.(calls := s.calls + [RecvDone(|s.recvs| - 1, Last(s.recvs).size)],
       counts := s.counts.(rxIntr := s.counts.rxIntr + 1))
  }

  /** A received byte that no Recv waits for makes a handler call report the finished session again. */
  lemma Again(s: Uart)
    requires LineInv(s.line) && s.recvs != [] && s.line.rx != [] && Missing(Last(s.recvs)) == 0 && s.requested == 0
    ensures Next(s, Interrupt(s, Renotified(s)), Renotified(s))
  {
    HardwareIsQuiet(s.line, 0);
    assert s.line.errs[|s.line.errs|..] == [];
    assert SetLast(s.recvs, Last(s.recvs)) == s.recvs;
    assert Last(s.recvs).stored + [] == Last(s.recvs).stored;
    assert RecvIrqPops(s, [], Renotified(s));
  }
}
