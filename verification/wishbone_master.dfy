/** The Wishbone bus master behind the GPIO port, clock by clock, with the registers it reaches. */
module WishboneMaster {
  import opened GpioWords

  datatype Phase = Idle | Writing | Reading | WaitRelease

  /** The registers on the bus: their contents after reset, and what was stored over them since. */
  datatype Registers = Reset(initial: Half -> Half) | Stored(before: Registers, at: Half, data: Half)

  function Peek(regs: Registers, add: Half): Half {
    match regs
    case Reset(initial) => initial(add)
    case Stored(before, at, data) => if add == at then data else Peek(before, add)
  }

  /** What a bus cycle does to the registers, and what it reads. */
  function Effect(regs: Registers, op: Op): Registers {
    match op
    case Read(_) => regs
    case Write(add, data) => Stored(regs, add, data)
  }

  function Answer(regs: Registers, op: Op): Half {
    match op
    case Read(add) => Peek(regs, add)
    case Write(_, _) => 0
  }

  /** The master's flip-flops, the registers on the bus, and the bus cycles completed so far. */
  datatype Master = Master(
    phase: Phase, cycle: bool, write: bool, address: Half, payload: Half, ack: bool, reply: Half,
    regs: Registers, done: seq<Op>)

  function Latched(s: Master): Op {
    if s.write then Write(s.address, s.payload) else Read(s.address)
  }

  /** A rising clock edge: w is on the processor's output, wbAck is the slave's answer to a bus cycle. */
  function Edge(s: Master, w: Word, wbAck: bool): Master {
    var t := s.(address := Address(w), payload := Payload(w));
    match s.phase
    case Idle =>
      t.(reply := 0, cycle := false, ack := false,
         phase := if !Requests(w) then Idle else if w & WRITE != 0 then Writing else Reading)
    case Writing =>
      if s.cycle && wbAck
      then t.(write := true, cycle := false, ack := true, phase := WaitRelease,
              regs := Effect(s.regs, Latched(s)), done := s.done + [Latched(s)])
      else t.(write := true, cycle := true)
    case Reading =>
      if s.cycle && wbAck
      then t.(write := false, cycle := false, ack := true, phase := WaitRelease,
              reply := Answer(s.regs, Latched(s)),
              regs := Effect(s.regs, Latched(s)), done := s.done + [Latched(s)])
      else t.(write := false, cycle := true)
    case WaitRelease =>
      if Releases(w) then t.(ack := false, phase := Idle) else t
  }

  /** The master's clock and its slave's acknowledgements, at each system clock tick. */
  datatype Timing = Timing(clk: nat -> bool, wbAck: nat -> bool)

  /** The master after ticks from + 1 to `until`, with w held on the processor's output. */
  function Clocked(s: Master, w: Word, tm: Timing, from: nat, until: nat): Master
    decreases until
  {
    if until <= from then s
    else
      var t := Clocked(s, w, tm, from, until - 1);
      if tm.clk(until) then Edge(t, w, tm.wbAck(until)) else t
  }

  lemma {:induction false} ClockedChains(s: Master, w: Word, tm: Timing, a: nat, b: nat, c: nat)
    requires a <= b <= c
    ensures Clocked(Clocked(s, w, tm, a, b), w, tm, b, c) == Clocked(s, w, tm, a, c)
    decreases c
  {
    if b < c {
      ClockedChains(s, w, tm, a, b, c - 1);
    }
  }

  ghost predicate EdgeIn(tm: Timing, from: nat, until: nat) {
    exists u: nat :: from < u <= until && tm.clk(u)
  }

  ghost predicate AnsweredAfter(tm: Timing, from: nat) {
    exists u: nat :: from < u && tm.clk(u) && tm.wbAck(u)
  }

  /** How long the release word stays on the output at least; GpioBus.Uc2.PlaceRequest proves it. */
  const RELEASE_TICKS: nat := 24

  ghost predicate EdgeSoon(tm: Timing, from: nat) {
    EdgeIn(tm, from, from + RELEASE_TICKS)
  }

  /** The master is clocked at least once in any window that long, and every bus cycle is answered at last. */
  ghost predicate Prompt(tm: Timing) {
    && (forall t: nat :: EdgeSoon(tm, t))
    && (forall t: nat :: AnsweredAfter(tm, t))
  }

  // ---- Releasing ----

  /** At rest: idle, or holding an acknowledgement. */
  ghost predicate AtRest(s: Master) {
    !s.cycle && (s.phase == Idle || s.phase == WaitRelease) && (s.ack <==> s.phase == WaitRelease)
  }

  /** With nothing, or the release word, on the output, a resting master changes nothing but its acknowledgement, and
      drops that exactly when it is clocked. */
  lemma {:induction false} ReleaseExact(s: Master, w: Word, tm: Timing, from: nat, until: nat)
    requires AtRest(s) && from <= until && (w == DONE_WORD || (w == 0 && s.phase == Idle))
    ensures var t := Clocked(s, w, tm, from, until);
            && AtRest(t) && t.regs == s.regs && t.done == s.done
            && (t.phase == Idle <==> s.phase == Idle || EdgeIn(tm, from, until))
    decreases until
  {
    RequestMeaning(0, 0);
    if from < until {
      ReleaseExact(s, w, tm, from, until - 1);
      if tm.clk(until) {
        assert EdgeIn(tm, from, until);
      } else {
        assert EdgeIn(tm, from, until) ==> EdgeIn(tm, from, until - 1);
      }
    }
  }

  // ---- Serving ----

  /** Part-way through serving the request w: nothing done yet, or the operation done once and acknowledged. */
  ghost predicate Serving(s0: Master, w: Word, s: Master) {
    match s.phase
    case Idle => !s.cycle && !s.ack && s.regs == s0.regs && s.done == s0.done
    case WaitRelease =>
      && s.ack && !s.cycle && s.reply == Answer(s0.regs, OpOf(w))
      && s.regs == Effect(s0.regs, OpOf(w)) && s.done == s0.done + [OpOf(w)]
    case _ =>
      && !s.ack && s.reply == 0 && s.regs == s0.regs && s.done == s0.done
      && s.address == Address(w) && s.payload == Payload(w)
      && (s.phase == Writing <==> w & WRITE != 0) && (s.cycle ==> Latched(s) == OpOf(w))
  }

  lemma EdgeServes(s0: Master, w: Word, s: Master, wbAck: bool)
    requires Requests(w) && !Releases(w) && Serving(s0, w, s)
    ensures Serving(s0, w, Edge(s, w, wbAck))
    ensures s.phase == Idle ==> Edge(s, w, wbAck).phase in {Writing, Reading}
    ensures s.phase in {Writing, Reading} ==> Edge(s, w, wbAck).phase == WaitRelease || Edge(s, w, wbAck).cycle
    ensures s.phase in {Writing, Reading} && s.cycle && wbAck ==> Edge(s, w, wbAck).phase == WaitRelease
    ensures s.phase == WaitRelease ==> Edge(s, w, wbAck).phase == WaitRelease
  {
  }

  lemma {:induction false} RequestServed(s: Master, w: Word, tm: Timing, from: nat, until: nat)
    requires s.phase == Idle && !s.cycle && !s.ack && Requests(w) && !Releases(w) && from <= until
    ensures Serving(s, w, Clocked(s, w, tm, from, until))
    decreases until
  {
    if from < until {
      RequestServed(s, w, tm, from, until - 1);
      EdgeServes(s, w, Clocked(s, w, tm, from, until - 1), tm.wbAck(until));
    }
  }

  /** How far a served request has come. */
  function Stage(s: Master): nat {
    match s.phase
    case Idle => 0
    case WaitRelease => 3
    case _ => if s.cycle then 2 else 1
  }

  /** u is the first clock edge after t. */
  ghost predicate FirstEdge(tm: Timing, t: nat, u: nat) {
    t < u && tm.clk(u) && forall v: nat :: t < v < u ==> !tm.clk(v)
  }

  /** u is the first clock edge after t at which the slave answers. */
  ghost predicate FirstAnswer(tm: Timing, t: nat, u: nat) {
    t < u && tm.clk(u) && tm.wbAck(u) && forall v: nat :: t < v < u ==> !(tm.clk(v) && tm.wbAck(v))
  }

  ghost predicate ServedVia(tm: Timing, from: nat, a: nat, b: nat, when: nat) {
    FirstEdge(tm, from, a) && FirstEdge(tm, a, b) && FirstAnswer(tm, b, when)
  }

  /** A request put on the output at `from` is acknowledged at `when`: one clock edge takes it in, the next starts the
      bus cycle, and the slave's first answer after that ends it. */
  ghost predicate ServedAt(tm: Timing, from: nat, when: nat) {
    exists a, b :: ServedVia(tm, from, a, b, when)
  }

  /** There is such a time. */
  lemma ServedAtLast(tm: Timing, from: nat) returns (when: nat)
    requires Prompt(tm)
    ensures ServedAt(tm, from, when)
  {
    assert EdgeSoon(tm, from);
    var x: nat :| from < x && tm.clk(x);
    var a := Least(from, x, tm.clk);
    assert EdgeSoon(tm, a);
    var y: nat :| a < y && tm.clk(y);
    var b := Least(a, y, tm.clk);
    assert AnsweredAfter(tm, b);
    var z: nat :| b < z && tm.clk(z) && tm.wbAck(z);
    var answers := (v: nat) => tm.clk(v) && tm.wbAck(v);
    when := Least(b, z, answers);
    assert forall v: nat :: b < v < when ==> !answers(v);
    forall v: nat | b < v < when ensures !(tm.clk(v) && tm.wbAck(v)) {
      assert !answers(v);
    }
    assert ServedVia(tm, from, a, b, when);
  }

  lemma {:induction false} Least(t: nat, x: nat, holds: nat -> bool) returns (u: nat)
    requires t < x && holds(x)
    ensures t < u <= x && holds(u) && forall v: nat :: t < v < u ==> !holds(v)
    decreases x
  {
    if v: nat :| t < v < x && holds(v) {
      u := Least(t, v, holds);
    } else {
      u := x;
    }
  }

  /** A clock edge moves a request on by one stage, the last one needing the slave's answer. */
  lemma EdgeStage(s0: Master, w: Word, s: Master, wbAck: bool)
    requires Requests(w) && !Releases(w) && Serving(s0, w, s)
    ensures Stage(Edge(s, w, wbAck)) == if Stage(s) < 2 then Stage(s) + 1 else if wbAck then 3 else Stage(s)
  {
  }

  /** Exactly how far the request has come at any time. */
  lemma {:induction false} StageExact(s: Master, w: Word, tm: Timing, from: nat, a: nat, b: nat, when: nat, u: nat)
    requires s.phase == Idle && !s.cycle && !s.ack && Requests(w) && !Releases(w) && from <= u
    requires ServedVia(tm, from, a, b, when)
    ensures Stage(Clocked(s, w, tm, from, u)) == if u < a then 0 else if u < b then 1 else if u < when then 2 else 3
    decreases u
  {
    if from < u {
      StageExact(s, w, tm, from, a, b, when, u - 1);
      RequestServed(s, w, tm, from, u - 1);
      EdgeStage(s, w, Clocked(s, w, tm, from, u - 1), tm.wbAck(u));
    }
  }

  /** The acknowledgement is set from the time the request is served on, and not before. */
  lemma AckExact(s: Master, w: Word, tm: Timing, from: nat, when: nat, u: nat)
    requires s.phase == Idle && !s.cycle && !s.ack && Requests(w) && !Releases(w) && from <= u
    requires ServedAt(tm, from, when)
    ensures var t := Clocked(s, w, tm, from, u);
            && Serving(s, w, t) && (t.ack <==> when <= u) && (t.ack ==> t.phase == WaitRelease)
  {
    var a, b :| ServedVia(tm, from, a, b, when);
    StageExact(s, w, tm, from, a, b, when, u);
    RequestServed(s, w, tm, from, u);
  }

  // ---- The release window is exact ----

  /** A master that missed the release never sees the next request: it keeps acknowledging the old one. */
  lemma {:induction false} StaleForever(s: Master, w: Word, tm: Timing, from: nat, until: nat)
    requires s.phase == WaitRelease && s.ack && !s.cycle && !Releases(w)
    ensures var t := Clocked(s, w, tm, from, until);
            t.phase == WaitRelease && t.ack && !t.cycle && t.done == s.done && t.regs == s.regs && t.reply == s.reply
    decreases until
  {
    if from < until {
      StaleForever(s, w, tm, from, until - 1);
    }
  }

  /**
   * With the release word on the output for n ticks and then a request: if the master was clocked in those
   * ticks, the request finds it idle and unacknowledging; if not, however long the request is held it is
   * never performed, and the processor sees the old acknowledgement at once.
   */
  lemma ReleaseWindowExact(s: Master, w: Word, tm: Timing, from: nat, n: nat, until: nat)
    requires s.phase == WaitRelease && s.ack && !s.cycle && Requests(w) && !Releases(w) && from + n <= until
    ensures var r := Clocked(s, DONE_WORD, tm, from, from + n);
            var t := Clocked(r, w, tm, from + n, until);
            && (EdgeIn(tm, from, from + n) ==> r.phase == Idle && !r.ack && Serving(s, w, t))
            && (!EdgeIn(tm, from, from + n) ==> r.ack && t.ack && t.done == s.done)
  {
    ReleaseExact(s, DONE_WORD, tm, from, from + n);
    var r := Clocked(s, DONE_WORD, tm, from, from + n);
    if r.phase == Idle {
      RequestServed(r, w, tm, from + n, until);
      var t := Clocked(r, w, tm, from + n, until);
      assert Serving(r, w, t);
    } else {
      StaleForever(r, w, tm, from + n, until);
    }
  }
}
