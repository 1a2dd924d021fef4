/** Two UART Lite drivers joined by a wire, and the drivers run by a script of application calls. */
module UartLink {
  import opened UartRegisters
  import opened UartLine
  import opened UartSpec
  import opened Basics
  import opened UartInvariants
  import opened UartTheorems
  import opened UartCallbacks
  import opened UartDeviceModel
  import opened UartDriver

  datatype Link = Link(a: Uart, b: Uart)

  datatype LinkAction = OnA(act: Action) | OnB(act: Action)

  /** Both ends freshly initialized, with empty FIFOs and nothing yet on the wire. */
  ghost predicate LinkInit(p: Link) {
    && Init(p.a) && p.a.line.tx == [] && p.a.line.wire == []
    && Init(p.b) && p.b.line.rx == [] && p.b.line.accepted == []
  }

  /** A lossless in-order wire without receive overrun: b has accepted a prefix of what a has transmitted. */
  ghost predicate WireOk(p: Link) {
    p.b.line.accepted <= p.a.line.wire
  }

  ghost predicate LinkNext(p: Link, x: LinkAction, p': Link) {
    match x
    case OnA(act) => Next(p.a, act, p'.a) && p'.b == p.b && !act.ResetFifos?
    case OnB(act) => Next(p.b, act, p'.b) && p'.a == p.a && !act.ResetFifos?
  }

  ghost predicate LinkStepAt(ps: seq<Link>, xs: seq<LinkAction>, i: nat)
    requires |ps| == |xs| + 1 && i < |xs|
  {
    LinkNext(ps[i], xs[i], ps[i + 1]) && WireOk(ps[i + 1])
  }

  /** Any interleaving of calls on the two ends, without FIFO resets. */
  ghost predicate IsLinkRun(ps: seq<Link>, xs: seq<LinkAction>) {
    && |ps| == |xs| + 1 && LinkInit(ps[0])
    && forall i :: 0 <= i < |xs| ==> LinkStepAt(ps, xs, i)
  }

  ghost predicate EndInv(u0: Uart, u: Uart) {
    Inv(u) && Unreset(u0, u)
  }

  lemma EndStarts(u: Uart)
    requires Init(u)
    ensures EndInv(u, u)
  {
    InitInv(u);
  }

  lemma EndKept(u0: Uart, u: Uart, act: Action, u': Uart)
    requires EndInv(u0, u) && Next(u, act, u') && !act.ResetFifos?
    ensures EndInv(u0, u')
  {
    NextKeepsInv(u, act, u');
    StepUnreset(u, act, u');
    UnresetChains(u0, u, u');
  }

  lemma LinkNextKeeps(p0: Link, p: Link, x: LinkAction, p': Link)
    requires LinkNext(p, x, p')
    ensures EndInv(p0.a, p.a) ==> EndInv(p0.a, p'.a)
    ensures EndInv(p0.b, p.b) ==> EndInv(p0.b, p'.b)
  {
    if x.OnA? && EndInv(p0.a, p.a) {
      EndKept(p0.a, p.a, x.act, p'.a);
    }
    if x.OnB? && EndInv(p0.b, p.b) {
      EndKept(p0.b, p.b, x.act, p'.b);
    }
  }

  /** A property that holds first and that each step keeps holds everywhere. */
  lemma {:induction false} Along<T>(ss: seq<T>, keeps: T -> bool, i: nat)
    requires i < |ss| && keeps(ss[0])
    requires forall j: nat :: j + 1 < |ss| && keeps(ss[j]) ==> keeps(ss[j + 1])
    ensures keeps(ss[i])
  {
    if i > 0 {
      Along(ss, keeps, i - 1);
    }
  }

  lemma LinkRunInv(ps: seq<Link>, xs: seq<LinkAction>, i: nat)
    requires IsLinkRun(ps, xs) && i < |ps|
    ensures EndInv(ps[0].a, ps[i].a) && EndInv(ps[0].b, ps[i].b)
  {
    var p0 := ps[0];
    ghost var keepsA, keepsB := (p: Link) => EndInv(p0.a, p.a), (p: Link) => EndInv(p0.b, p.b);
    EndStarts(p0.a);
    EndStarts(p0.b);
    forall j: nat | j + 1 < |ps|
      ensures keepsA(ps[j]) ==> keepsA(ps[j + 1])
      ensures keepsB(ps[j]) ==> keepsB(ps[j + 1])
    {
      assert LinkStepAt(ps, xs, j);
      LinkNextKeeps(p0, ps[j], xs[j], ps[j + 1]);
    }
    Along(ps, keepsA, i);
    Along(ps, keepsB, i);
  }

  /** What the two ends' invariants say about the streams. */
  lemma StreamsMeet(p0: Link, p: Link)
    requires LinkInit(p0) && EndInv(p0.a, p.a) && EndInv(p0.b, p.b)
    ensures p.a.line.wire + p.a.line.tx == Stream(p.a.sends)
    ensures Stored(p.b.recvs) + p.b.line.rx == p.b.line.accepted
  {
    InitInv(p0.a);
    InitInv(p0.b);
    SentSince(p0.a.line, p.a.line);
    ReadSince(p0.b.line, p.b.line);
  }

  lemma StoredIsPrefix(p: Link)
    requires WireOk(p)
    requires p.a.line.wire + p.a.line.tx == Stream(p.a.sends)
    requires Stored(p.b.recvs) + p.b.line.rx == p.b.line.accepted
    ensures Stored(p.b.recvs) <= Stream(p.a.sends)
    ensures p.a.line.tx == [] && p.b.line.rx == [] && |p.b.line.accepted| == |p.a.line.wire| ==>
              Stored(p.b.recvs) == Stream(p.a.sends)
  {
  }

  /**
   * End to end. Whatever the two applications call and however the calls interleave, everything b's Recv
   * sessions have stored is a prefix of everything a's Send sessions have pushed; and it is all of it once
   * the FIFOs are empty and the wire has been taken in.
   */
  lemma EndToEnd(ps: seq<Link>, xs: seq<LinkAction>, i: nat)
    requires IsLinkRun(ps, xs) && i < |ps|
    ensures var p := ps[i];
            && Stored(p.b.recvs) <= Stream(p.a.sends)
            && (p.a.line.tx == [] && p.b.line.rx == [] && |p.b.line.accepted| == |p.a.line.wire| ==>
                  Stored(p.b.recvs) == Stream(p.a.sends))
  {
    LinkRunInv(ps, xs, i);
    assert WireOk(ps[i]) by {
      if i > 0 {
        assert LinkStepAt(ps, xs, i - 1);
      }
    }
    StreamsMeet(ps[0], ps[i]);
    StoredIsPrefix(ps[i]);
  }

  // ---- Scripts ----

  datatype Command = DoSend(data: seq<Byte>) | DoRecv(size: nat) | DoInterrupt | DoReset | DoEnable(on: bool) | DoClear

  predicate Fits(c: Command) {
    match c
    case DoSend(data) => |data| < 0x8000_0000
    case DoRecv(size) => size < 0x8000_0000
    case _ => true
  }

  /** The action a command is allowed to be. */
  ghost predicate Performs(c: Command, a: Action) {
    match c
    case DoSend(data) => a == UartSpec.Send(data)
    case DoRecv(size) => a.Recv? && a.size == size
    case DoInterrupt => a.Interrupt?
    case DoReset => a.ResetFifos?
    case DoEnable(on) => a == UartSpec.SetInterrupt(on)
    case DoClear => a == UartSpec.ClearStats
  }

  method SendBytes(x: XUartLite, data: seq<Byte>)
    requires x.Valid() && |data| < 0x8000_0000
    modifies x, x.device
    ensures x.Valid() && Next(old(x.u), UartSpec.Send(data), x.u) && x.recvBuf == old(x.recvBuf)
  {
    var buf := new Byte[|data|](i requires 0 <= i < |data| => data[i]);
    assert buf[..|data|] == data;
    var sent := x.Send(buf, |data|);
  }

  method RecvBytes(x: XUartLite, size: nat) returns (ghost act: Action)
    requires x.Valid() && size < 0x8000_0000
    modifies x, x.device
    ensures x.Valid() && Next(old(x.u), act, x.u) && act.Recv? && act.size == size && fresh(x.recvBuf)
  {
    var buf := new Byte[size];
    act := UartSpec.Recv(buf[..], size);
    var received := x.Recv(buf, size);
  }

  /** One application call on a driver whose buffers the script owns. */
  method Perform(x: XUartLite, c: Command) returns (ghost act: Action)
    requires x.Valid() && Fits(c)
    modifies x, x.device, x.recvBuf
    ensures x.Valid() && Next(old(x.u), act, x.u) && Performs(c, act)
    ensures x.recvBuf != old(x.recvBuf) ==> fresh(x.recvBuf)
  {
    match c
    case DoSend(data) =>
      SendBytes(x, data);
      act := UartSpec.Send(data);
    case DoRecv(size) =>
      act := RecvBytes(x, size);
    case DoInterrupt => act := x.InterruptHandler();
    case _ => act := PerformControl(x, c);
  }

  method PerformControl(x: XUartLite, c: Command) returns (ghost act: Action)
    requires x.Valid() && (c.DoReset? || c.DoEnable? || c.DoClear?)
    modifies x, x.device
    ensures x.Valid() && Next(old(x.u), act, x.u) && Performs(c, act) && x.recvBuf == old(x.recvBuf)
  {
    match c
    case DoReset =>
      ghost var flushed := x.ResetFifos();
      act := UartSpec.ResetFifos(flushed);
    case DoEnable(on) =>
      x.SetInterrupt(on);
      act := UartSpec.SetInterrupt(on);
    case DoClear =>
      x.ClearStats();
      act := UartSpec.ClearStats;
  }

  /** ss and acts are a run from u0 to u that performs the first n commands of the script. */
  ghost predicate RunOf(script: seq<Command>, n: nat, u0: Uart, ss: seq<Uart>, acts: seq<Action>, u: Uart) {
    && IsRun(ss, acts) && ss[0] == u0 && Last(ss) == u
    && n <= |script| && |acts| == n && forall j :: 0 <= j < n ==> Performs(script[j], acts[j])
  }

  lemma RunOfExtends(script: seq<Command>, n: nat, u0: Uart, ss: seq<Uart>, acts: seq<Action>, u: Uart,
                     a: Action, u': Uart)
    requires RunOf(script, n, u0, ss, acts, u) && n < |script| && Performs(script[n], a) && Next(u, a, u')
    ensures RunOf(script, n + 1, u0, ss + [u'], acts + [a], u')
  {
    RunExtends(ss, acts, a, u');
  }

  /** The 32-bit statistics say what happened since they were last cleared. */
  ghost predicate StatisticsTold(stats: Counts, u: Uart, acts: seq<Action>) {
    && u.clearTx <= |u.line.pushed| && u.clearRx <= |u.line.popped| == |u.line.errs|
    && stats.charsTx == (|u.line.pushed| - u.clearTx) % U32_RANGE
    && stats.charsRx == (|u.line.popped| - u.clearRx) % U32_RANGE
    && stats.txIntr == EntriesSinceClear(acts) % U32_RANGE && stats.rxIntr == FindsSinceClear(acts) % U32_RANGE
    && var errs := u.line.errs[u.clearRx..];
       && stats.overrun == Tally(errs, Overrun) % U32_RANGE && stats.parity == Tally(errs, Parity) % U32_RANGE
       && stats.framing == Tally(errs, Framing) % U32_RANGE
  }

  lemma TellsStatistics(ss: seq<Uart>, acts: seq<Action>, stats: Counts)
    requires IsRun(ss, acts) && stats == Reduced(Last(ss).counts)
    ensures StatisticsTold(stats, Last(ss), acts)
  {
    RunInv(ss, acts, |acts|);
    InterruptsExact(ss, acts, |acts|);
    assert acts[..|acts|] == acts;
  }

  method PlayOne(x: XUartLite, script: seq<Command>, n: nat,
                 ghost u0: Uart, ghost ss: seq<Uart>, ghost acts: seq<Action>)
    returns (ghost ss': seq<Uart>, ghost acts': seq<Action>)
    requires n < |script| && Fits(script[n]) && x.Valid() && RunOf(script, n, u0, ss, acts, x.u)
    modifies x, x.device, x.recvBuf
    ensures x.Valid() && RunOf(script, n + 1, u0, ss', acts', x.u)
    ensures x.recvBuf != old(x.recvBuf) ==> fresh(x.recvBuf)
  {
    ghost var u := x.u;
    ghost var act := Perform(x, script[n]);
    RunOfExtends(script, n, u0, ss, acts, u, act, x.u);
    ss', acts' := ss + [x.u], acts + [act];
  }

  /** Every script of calls on a real instance, with any hardware activity, is a run of the transition system.
      Its device refuses no access, and is left with the interrupt enable the last enable or disable asked for; the
      instance's statistics tell what happened. */
  method Play(dev: UartDevice, script: seq<Command>)
    returns (x: XUartLite, ghost ss: seq<Uart>, ghost acts: seq<Action>)
    requires dev.Valid() && forall i :: 0 <= i < |script| ==> Fits(script[i])
    modifies dev
    ensures x.device == dev && x.Valid() && ss != [] && RunOf(script, |script|, ss[0], ss, acts, x.u)
    ensures Exchange(old(dev.State()), ss[0].line, [], [])
    ensures dev.refused == old(dev.refused) && dev.intr == EnabledBy(acts)
    ensures StatisticsTold(x.stats, x.u, acts)
  {
    x := new XUartLite.CfgInitialize(dev);
    ghost var u0 := x.u;
    ss, acts := [u0], [];
    for i := 0 to |script|
      invariant fresh(x) && x.device == dev && x.Valid()
      invariant x.recvBuf == null || fresh(x.recvBuf)
      invariant RunOf(script, i, u0, ss, acts, x.u)
    {
      ss, acts := PlayOne(x, script, i, u0, ss, acts);
    }
    assert acts[..|acts|] == acts;
    AccessesSafe(ss, acts, |acts|);
    TellsStatistics(ss, acts, x.stats);
  }

  /** So the theorems hold of real instances: without a reset in the script, the device has transmitted or
      still queues what it held before, then exactly what the script's Sends pushed, in order. */
  method PlayExact(dev: UartDevice, script: seq<Command>) returns (x: XUartLite, ghost asked: seq<seq<Byte>>)
    requires dev.Valid() && forall i :: 0 <= i < |script| ==> Fits(script[i]) && !script[i].DoReset?
    modifies dev
    ensures x.device == dev && x.Valid()
    ensures dev.wire + dev.tx == old(dev.wire) + old(dev.tx) + Stream(x.u.sends)
    ensures Datas(x.u.sends) == [[]] + asked
    ensures asked == Wanted(script)
  {
    ghost var before := dev.State();
    ghost var ss, acts;
    x, ss, acts := Play(dev, script);
    RunOfExact(script, before, ss[0], ss, acts, x.u);
    asked := Asked(acts);
  }

  lemma RunOfExact(script: seq<Command>, l: Line, u0: Uart, ss: seq<Uart>, acts: seq<Action>, u: Uart)
    requires RunOf(script, |script|, u0, ss, acts, u) && forall i :: 0 <= i < |script| ==> !script[i].DoReset?
    requires Exchange(l, u0.line, [], [])
    ensures u.line.wire + u.line.tx == l.wire + l.tx + Stream(u.sends)
    ensures Datas(u.sends) == [[]] + Asked(acts) && Asked(acts) == Wanted(script)
  {
    NoResets(script, acts);
    TransmitExact(ss, acts);
    AskedIsWanted(script, acts);
    StartsQuiet(l, u0.line);
  }

  lemma NoResets(script: seq<Command>, acts: seq<Action>)
    requires |acts| == |script| && forall i :: 0 <= i < |script| ==> Performs(script[i], acts[i]) && !script[i].DoReset?
    ensures NoReset(acts, |acts|)
  {
    forall i | 0 <= i < |acts| ensures !acts[i].ResetFifos? {
      assert Performs(script[i], acts[i]);
    }
  }

  lemma StartsQuiet(l: Line, m: Line)
    requires Exchange(l, m, [], [])
    ensures m.wire + m.tx == l.wire + l.tx
  {
  }

  /** The buffers a script sends. */
  function Wanted(script: seq<Command>): seq<seq<Byte>> {
    if script == [] then []
    else
      var c := Last(script);
      Wanted(script[..|script| - 1]) + (if c.DoSend? then [c.data] else [])
  }

  lemma {:induction false} AskedIsWanted(script: seq<Command>, acts: seq<Action>)
    requires |acts| == |script| && forall i :: 0 <= i < |script| ==> Performs(script[i], acts[i])
    ensures Asked(acts) == Wanted(script)
  {
    if script != [] {
      var n := |script| - 1;
      assert Performs(script[n], acts[n]);
      forall i | 0 <= i < n ensures Performs(script[..n][i], acts[..n][i]) {
        assert Performs(script[i], acts[i]);
      }
      AskedIsWanted(script[..n], acts[..n]);
    }
  }
}
