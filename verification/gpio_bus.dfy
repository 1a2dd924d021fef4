/** The processor's side of the GPIO-to-Wishbone bridge: 16- and 32-bit register access. */
module GpioBus {
  import opened Basics
  import opened GpioWords
  import opened WishboneMaster

  const TICKS_PER_INSTRUCTION: nat := 4

  class Uc2 {
    const tm: Timing
    var now: nat
    var gpioOut: Word
    var master: Master

    /** When the current or last request, and the last release word, were put on the output. */
    ghost var requestedAt: nat
    ghost var releasedAt: nat

    /** Between operations: the master is idle, or has not been clocked since the release word went out. */
    ghost predicate Valid()
      reads this
    {
      && Prompt(tm) && AtRest(master) && (gpioOut == DONE_WORD || (gpioOut == 0 && master.phase == Idle))
      && (gpioOut == DONE_WORD ==> now >= releasedAt + 8)
      && (master.phase == WaitRelease ==> gpioOut == DONE_WORD && !EdgeIn(tm, releasedAt, now))
    }

    /** After reset. */
    constructor (timing: Timing, regs: Registers)
      requires Prompt(timing)
      ensures Valid() && tm == timing && master.regs == regs && master.done == [] && now == 0
    {
      tm, now, gpioOut := timing, 0, 0;
      master := Master(Idle, false, false, 0, 0, false, 0, regs, []);
      requestedAt, releasedAt := 0, 0;
    }

    /** ppc_instruction_delay: four system clocks an instruction. */
    method InstructionDelay(n: nat)
      modifies this`now, this`master
      ensures now == old(now) + TICKS_PER_INSTRUCTION * n
      ensures master == Clocked(old(master), gpioOut, tm, old(now), now)
    {
      WaitTicks(n * TICKS_PER_INSTRUCTION);
    }

    method WaitTicks(n: nat)
      modifies this`now, this`master
      ensures now == old(now) + n
      ensures master == Clocked(old(master), gpioOut, tm, old(now), now)
    {
      var i := 0;
      while i < n
        invariant i <= n && now == old(now) + i
        invariant master == Clocked(old(master), gpioOut, tm, old(now), now)
      {
        now := now + 1;
        if tm.clk(now) {
          master := Edge(master, gpioOut, tm.wbAck(now));
        }
        i := i + 1;
      }
    }

    /** The program does something else between two accesses. */
    method Elapse(n: nat)
      requires Valid()
      modifies this`now, this`master
      ensures Valid() && now == old(now) + TICKS_PER_INSTRUCTION * n
      ensures master.regs == old(master).regs && master.done == old(master).done
    {
      ReleaseExact(master, gpioOut, tm, now, now + TICKS_PER_INSTRUCTION * n);
      InstructionDelay(n);
    }

    /** rd_gpio: the value read is the one before whatever the last clock edge changes. */
    method ReadGpio() returns (data: Word)
      modifies this`now, this`master
      ensures now == old(now) + TICKS_PER_INSTRUCTION
      ensures master == Clocked(old(master), gpioOut, tm, old(now), now)
      ensures var seen := Clocked(old(master), gpioOut, tm, old(now), now - 1); data == ReplyWord(seen.ack, seen.reply)
    {
      WaitTicks(TICKS_PER_INSTRUCTION - 1);
      data := ReplyWord(master.ack, master.reply);
      WaitTicks(1);
    }

    /** wr_gpio. */
    method WriteGpio(data: Word)
      modifies this`now, this`master, this`gpioOut
      ensures now == old(now) + TICKS_PER_INSTRUCTION && gpioOut == data
      ensures master == Clocked(old(master), old(gpioOut), tm, old(now), now)
    {
      InstructionDelay(1);
      gpioOut := data;
    }

    /**
     * The first half of an access: wait `delay` instructions, then put the request on the output. Three
     * instructions are enough for the release word to have been there for 24 clocks, so the master has seen
     * it: the request finds the master idle and not acknowledging.
     */
    method PlaceRequest(w: Word, delay: nat)
      requires Valid() && delay >= 3
      modifies this`now, this`master, this`gpioOut, this`requestedAt
      ensures now == old(now) + 4 * delay + 4 && requestedAt == now && gpioOut == w
      ensures master.phase == Idle && !master.cycle && !master.ack
      ensures master.regs == old(master).regs && master.done == old(master).done
      ensures old(gpioOut) == DONE_WORD ==> requestedAt - releasedAt >= RELEASE_TICKS
    {
      ghost var s, t0 := master, now;
      InstructionDelay(delay);
      ghost var t1 := now;
      WriteGpio(w);
      requestedAt := now;
      ClockedChains(s, old(gpioOut), tm, t0, t1, now);
      ReleaseExact(s, old(gpioOut), tm, t0, now);
      if s.phase == WaitRelease {
        assert EdgeSoon(tm, releasedAt);
        var u: nat :| releasedAt < u <= releasedAt + RELEASE_TICKS && tm.clk(u);
        assert u > t0 && EdgeIn(tm, t0, now);
      }
    }

    /** One turn of the polling loop: an instruction, the read, another instruction. */
    method Poll() returns (uc2In: Word)
      modifies this`now, this`master
      ensures now == old(now) + 12
      ensures master == Clocked(old(master), gpioOut, tm, old(now), now)
      ensures var seen := Clocked(old(master), gpioOut, tm, old(now), now - 5); uc2In == ReplyWord(seen.ack, seen.reply)
    {
      ghost var s, t0 := master, now;
      InstructionDelay(1);
      ghost var t1 := now;
      uc2In := ReadGpio();
      ghost var t2 := now;
      InstructionDelay(1);
      ClockedChains(s, gpioOut, tm, t0, t1, t2 - 1);
      ClockedChains(s, gpioOut, tm, t0, t1, t2);
      ClockedChains(s, gpioOut, tm, t0, t2, now);
    }

    /** The polling loop: read GPIO_IN every three instructions until the acknowledge bit is set. It ends with the
        first poll that can see the request served. */
    method AwaitAck(ghost s0: Master) returns (uc2In: Word, ghost polls: nat)
      requires Prompt(tm) && Requests(gpioOut) && !Releases(gpioOut)
      requires master == s0 && s0.phase == Idle && !s0.cycle && !s0.ack
      modifies this`now, this`master
      ensures polls >= 1 && now == old(now) + 12 * polls && SeenAfter(tm, old(now), polls)
      ensures master.phase == WaitRelease && Serving(s0, gpioOut, master)
      ensures Payload(uc2In) == Answer(s0.regs, OpOf(gpioOut))
    {
      ghost var t0, w := now, gpioOut;
      ghost var served := ServedAtLast(tm, t0);
      uc2In, polls := 0, 0;
      while uc2In & ACKED == 0
        invariant now == t0 + 12 * polls && master == Clocked(s0, w, tm, t0, now)
        invariant uc2In & ACKED == 0 || polls >= 1
        invariant if uc2In & ACKED == 0 then now < served + 5
                  else served + 5 <= now < served + 17 && Payload(uc2In) == Answer(s0.regs, OpOf(w))
        decreases served + 5 - now
      {
        ghost var t1 := now;
        uc2In := Poll();
        polls := polls + 1;
        ghost var t3 := now - 5;
        ghost var seen := Clocked(s0, w, tm, t0, t3);
        ClockedChains(s0, w, tm, t0, t1, t3);
        ClockedChains(s0, w, tm, t0, t1, now);
        AckExact(s0, w, tm, t0, served, t3);
        ReplyMeaning(seen.ack, seen.reply);
      }
      AckExact(s0, w, tm, t0, served, now);
      assert ServedAt(tm, t0, served);
    }

    /** The last part of an access: put the release word on the output and give it two instructions. */
    method Release()
      requires Prompt(tm) && AtRest(master) && master.phase == WaitRelease
      requires Requests(gpioOut) && !Releases(gpioOut)
      modifies this`now, this`master, this`gpioOut, this`releasedAt
      ensures Valid() && now == old(now) + 12 && releasedAt == now - 8
      ensures master.regs == old(master).regs && master.done == old(master).done
    {
      StaleForever(master, gpioOut, tm, now, now + 4);
      WriteGpio(DONE_WORD);
      releasedAt := now;
      ReleaseExact(master, DONE_WORD, tm, now, now + 8);
      InstructionDelay(2);
    }

    /** WB_write16. */
    method WbWrite16(data: Half, add: Half) returns (ghost polls: nat)
      requires Valid()
      modifies this
      ensures Valid() && polls >= 1 && now == old(now) + 32 + 12 * polls
      ensures var op := OpOf(WriteWord(data, add));
              master.done == old(master).done + [op] && master.regs == Effect(old(master).regs, op)
      ensures requestedAt == old(now) + 20 && releasedAt == now - 8 && SeenAfter(tm, requestedAt, polls)
    {
      RequestMeaning(data, add);
      var uc2Out := WriteWord(data, add);
      PlaceRequest(uc2Out, 4);
      var uc2In;
      uc2In, polls := AwaitAck(master);
      Release();
    }

    /** WB_read16. */
    method WbRead16(add: Half) returns (data: Half, ghost polls: nat)
      requires Valid()
      modifies this
      ensures Valid() && polls >= 1 && now == old(now) + 32 + 12 * polls
      ensures var op := OpOf(ReadWord(add));
              && master.done == old(master).done + [op] && master.regs == Effect(old(master).regs, op)
              && data == Answer(old(master).regs, op)
      ensures requestedAt == old(now) + 16 && releasedAt == now - 8 && SeenAfter(tm, requestedAt, polls)
    {
      RequestMeaning(0, add);
      var uc2Out := ReadWord(add);
      PlaceRequest(uc2Out, 3);
      var uc2In;
      uc2In, polls := AwaitAck(master);
      data := Payload(uc2In);
      StaleForever(master, gpioOut, tm, now, now + 4);
      InstructionDelay(1);
      Release();
    }

    /** WB_write32: the high half at add, then the low half at add + 1 (in 16 bits). */
    method WbWrite32(data: Word, add: Half) returns (ghost polls: nat)
      requires Valid()
      modifies this
      ensures Valid() && polls >= 2 && now == old(now) + 64 + 12 * polls
      ensures master.done == old(master).done + Write32Ops(data, add)
      ensures master.regs == EffectOf(old(master).regs, Write32Ops(data, add))
    {
      ghost var polls1, polls2;
      polls1 := WbWrite16(High(data), add);
      polls2 := WbWrite16(Low(data), add + 1);
      polls := polls1 + polls2;
      EffectOfTwo(old(master).regs, Write32Ops(data, add));
    }

    /** WB_read32. */
    method WbRead32(add: Half) returns (data: Word, ghost polls: nat)
      requires Valid()
      modifies this
      ensures Valid() && polls >= 2 && now == old(now) + 64 + 12 * polls
      ensures master.done == old(master).done + Read32Ops(add)
      ensures master.regs == EffectOf(old(master).regs, Read32Ops(add))
      ensures data == Read32(old(master).regs, add)
    {
      var dataHigh, dataLow;
      ghost var polls1, polls2;
      dataHigh, polls1 := WbRead16(add);
      dataLow, polls2 := WbRead16(add + 1);
      data := Joined(dataHigh, dataLow);
      polls := polls1 + polls2;
      EffectOfTwo(old(master).regs, Read32Ops(add));
    }
  }

  /** Poll k, whose read samples the master 12 * k - 5 clocks after the request, is the first to come after the
      request is served. */
  ghost predicate SeenAfter(tm: Timing, requested: nat, k: nat) {
    exists when: nat :: ServedAt(tm, requested, when) && when <= requested + 12 * k - 5 < when + 12
  }

  // ---- What the accesses mean ----

  function EffectOf(regs: Registers, ops: seq<Op>): Registers {
    if ops == [] then regs else Effect(EffectOf(regs, ops[..|ops| - 1]), ops[|ops| - 1])
  }

  lemma EffectOfTwo(regs: Registers, ops: seq<Op>)
    requires |ops| == 2
    ensures EffectOf(regs, ops) == Effect(Effect(regs, ops[0]), ops[1])
  {
    assert ops[..1][..0] == [];
    assert EffectOf(regs, ops[..1]) == Effect(regs, ops[0]);
  }

  function Write32Ops(data: Word, add: Half): seq<Op> {
    [OpOf(WriteWord(High(data), add)), OpOf(WriteWord(Low(data), add + 1))]
  }

  function Read32Ops(add: Half): seq<Op> {
    [OpOf(ReadWord(add)), OpOf(ReadWord(add + 1))]
  }

  function Read32(regs: Registers, add: Half): Word {
    var ops := Read32Ops(add);
    Joined(Answer(regs, ops[0]), Answer(Effect(regs, ops[0]), ops[1]))
  }

  // ---- 32-bit registers ----

  lemma TwelveBits(add: Half)
    requires add < 0x0FFF
    ensures add & 0xF000 == 0 && (add + 1) & 0xF000 == 0 && add != add + 1
  {
  }

  /** The registers after a 32-bit write. */
  lemma AfterWrite32(regs: Registers, data: Word, add: Half)
    ensures var a, b := add & 0x0FFF, (add + 1) & 0x0FFF;
            a != b && EffectOf(regs, Write32Ops(data, add)) == Stored(Stored(regs, a, High(data)), b, Low(data))
  {
    RequestMeaning(High(data), add);
    RequestMeaning(Low(data), add + 1);
    EffectOfTwo(regs, Write32Ops(data, add));
    NextAddressDiffers(add);
  }

  /** What a 32-bit read makes of two registers: a half whose address has bit 12 set reads as zero. */
  lemma Read32Of(regs: Registers, add: Half)
    ensures var a, b := add & 0x0FFF, (add + 1) & 0x0FFF;
            Read32(regs, add) == Joined(if add & 0x1000 == 0 then Peek(regs, a) else 0,
                                        if (add + 1) & 0x1000 == 0 then Peek(regs, b) else 0)
    ensures add & 0x1000 == 0 && (add + 1) & 0x1000 == 0 ==> EffectOf(regs, Read32Ops(add)) == regs
  {
    RequestMeaning(0, add);
    RequestMeaning(0, add + 1);
    EffectOfTwo(regs, Read32Ops(add));
    NextAddressDiffers(add);
  }

  /** On the twelve-bit bus a 32-bit write is read back, and touches only its two cells. */
  lemma RegisterRoundTrip(regs: Registers, data: Word, add: Half, other: Half)
    requires add < 0x0FFF
    ensures var after := EffectOf(regs, Write32Ops(data, add));
            && Write32Ops(data, add) == [Write(add, High(data)), Write(add + 1, Low(data))]
            && Read32(after, add) == data
            && EffectOf(after, Read32Ops(add)) == after
            && (other != add && other != add + 1 ==> Peek(after, other) == Peek(regs, other))
  {
    TwelveBits(add);
    RequestsExact(High(data), add);
    RequestsExact(Low(data), add + 1);
    EffectOfTwo(regs, Write32Ops(data, add));
    var after := EffectOf(regs, Write32Ops(data, add));
    AfterWrite32(regs, data, add);
    Read32Of(after, add);
    NoHighBits(add);
    NoHighBits(add + 1);
    HalvesJoin(data, 0, 0);
  }

  lemma NoHighBits(add: Half)
    ensures add & 0xF000 == 0 ==> add & 0x0FFF == add && add & 0x1000 == 0
  {
  }

  /** Reading back what was written, whatever it was: exactly when neither half's address has bit 12 set,
      which would turn its read into a write of zero. */
  lemma RoundTripExact(regs: Registers, add: Half)
    ensures (forall data: Word :: Read32(EffectOf(regs, Write32Ops(data, add)), add) == data)
            <==> add & 0x1000 == 0 && (add + 1) & 0x1000 == 0
  {
    forall data: Word
      ensures Read32(EffectOf(regs, Write32Ops(data, add)), add)
              == Joined(if add & 0x1000 == 0 then High(data) else 0, if (add + 1) & 0x1000 == 0 then Low(data) else 0)
    {
      AfterWrite32(regs, data, add);
      Read32Of(EffectOf(regs, Write32Ops(data, add)), add);
    }
    forall data: Word ensures Joined(High(data), Low(data)) == data {
      HalvesJoin(data, 0, 0);
    }
    if add & 0x1000 != 0 || (add + 1) & 0x1000 != 0 {
      var ones: Word := 0xFFFF_FFFF;
      LostHalf(if add & 0x1000 == 0 then High(ones) else 0, if (add + 1) & 0x1000 == 0 then Low(ones) else 0);
      assert Read32(EffectOf(regs, Write32Ops(ones, add)), add) != ones;
    }
  }

  lemma LostHalf(high: Half, low: Half)
    requires high == 0 || low == 0
    ensures Joined(high, low) != 0xFFFF_FFFF
  {
  }

  // ---- Whole programs of accesses ----

  datatype Call =
    | Call16W(data: Half, add: Half)
    | Call16R(add: Half)
    | Call32W(wide: Word, add: Half)
    | Call32R(add: Half)

  /** The bus cycles an access asks for. */
  function CallOps(c: Call): seq<Op> {
    match c
    case Call16W(data, add) => [OpOf(WriteWord(data, add))]
    case Call16R(add) => [OpOf(ReadWord(add))]
    case Call32W(wide, add) => Write32Ops(wide, add)
    case Call32R(add) => Read32Ops(add)
  }

  function ProgramOps(calls: seq<Call>): seq<Op> {
    if calls == [] then [] else ProgramOps(calls[..|calls| - 1]) + CallOps(calls[|calls| - 1])
  }

  function Widened(h: Half): Word { h as Word }

  /** What an access returns on these registers; a write returns nothing, here 0. */
  function CallAnswer(regs: Registers, c: Call): Word {
    match c
    case Call16R(add) => Widened(Answer(regs, OpOf(ReadWord(add))))
    case Call32R(add) => Read32(regs, add)
    case _ => 0
  }

  lemma {:induction false} EffectOfConcat(regs: Registers, a: seq<Op>, b: seq<Op>)
    ensures EffectOf(regs, a + b) == EffectOf(EffectOf(regs, a), b)
  {
    if b == [] {
      assert a + b == a;
    } else {
      assert (a + b)[..|a + b| - 1] == a + b[..|b| - 1];
      EffectOfConcat(regs, a, b[..|b| - 1]);
    }
  }

  /** From m to m' the bus carried out these operations and nothing else. */
  ghost predicate Did(m: Master, ops: seq<Op>, m': Master) {
    m'.done == m.done + ops && m'.regs == EffectOf(m.regs, ops)
  }

  lemma DidBoth(m0: Master, a: seq<Op>, m: Master, b: seq<Op>, m': Master)
    requires Did(m0, a, m) && Did(m, b, m')
    ensures Did(m0, a + b, m')
  {
    EffectOfConcat(m0.regs, a, b);
    Associates(m0.done, a, b);
  }

  /** From m to m' the bus carried out the access c and nothing else, and returned `answer`. */
  ghost predicate CarriedOut(m: Master, c: Call, m': Master, answer: Word) {
    Did(m, CallOps(c), m') && answer == CallAnswer(m.regs, c)
  }

  lemma EffectOfOne(regs: Registers, op: Op)
    ensures EffectOf(regs, [op]) == Effect(regs, op)
  {
    assert [op][..0] == [];
  }

  method PerformWrite16(bus: Uc2, data: Half, add: Half)
    requires bus.Valid()
    modifies bus
    ensures bus.Valid() && CarriedOut(old(bus.master), Call16W(data, add), bus.master, 0)
  {
    EffectOfOne(bus.master.regs, OpOf(WriteWord(data, add)));
    var _ := bus.WbWrite16(data, add);
  }

  method PerformRead16(bus: Uc2, add: Half) returns (answer: Word)
    requires bus.Valid()
    modifies bus
    ensures bus.Valid() && CarriedOut(old(bus.master), Call16R(add), bus.master, answer)
  {
    EffectOfOne(bus.master.regs, OpOf(ReadWord(add)));
    var data;
    ghost var polls;
    data, polls := bus.WbRead16(add);
    answer := Widened(data);
  }

  /** Any time after the access before it, one more access. */
  method PerformCall(bus: Uc2, c: Call) returns (answer: Word)
    requires bus.Valid()
    modifies bus
    ensures bus.Valid() && CarriedOut(old(bus.master), c, bus.master, answer)
  {
    var pause: nat := *;
    bus.Elapse(pause);
    answer := 0;
    match c
    case Call16W(data, add) => PerformWrite16(bus, data, add);
    case Call16R(add) => answer := PerformRead16(bus, add);
    case Call32W(wide, add) =>
      var _ := bus.WbWrite32(wide, add);
    case Call32R(add) =>
      ghost var polls;
      answer, polls := bus.WbRead32(add);
  }

  /** The registers after the first j accesses. */
  function RegsAfter(regs: Registers, calls: seq<Call>, j: nat): Registers
    requires j <= |calls|
  {
    EffectOf(regs, ProgramOps(calls[..j]))
  }

  /** From m0 to m the bus carried out these accesses and nothing else, each answered as of its own place. */
  ghost predicate RanProgram(m0: Master, calls: seq<Call>, m: Master, answers: seq<Word>) {
    && Did(m0, ProgramOps(calls), m)
    && |answers| == |calls|
    && forall j :: 0 <= j < |calls| ==> answers[j] == CallAnswer(RegsAfter(m0.regs, calls, j), calls[j])
  }

  ghost predicate StepTraced(ms: seq<Master>, calls: seq<Call>, answers: seq<Word>, j: nat)
    requires j < |ms| - 1 && j < |calls| && j < |answers|
  {
    CarriedOut(ms[j], calls[j], ms[j + 1], answers[j])
  }

  /** ms are the states between the first n accesses. */
  ghost predicate Traced(ms: seq<Master>, calls: seq<Call>, n: nat, answers: seq<Word>) {
    && n <= |calls| && n < |ms| && n <= |answers|
    && forall j :: 0 <= j < n ==> StepTraced(ms, calls, answers, j)
  }

  lemma TraceExtends(ms: seq<Master>, calls: seq<Call>, n: nat, answers: seq<Word>, m: Master, answer: Word)
    requires Traced(ms, calls, n, answers) && |ms| == n + 1 && |answers| == n
    requires n < |calls| && CarriedOut(ms[n], calls[n], m, answer)
    ensures Traced(ms + [m], calls, n + 1, answers + [answer])
  {
    forall j | 0 <= j < n + 1 ensures StepTraced(ms + [m], calls, answers + [answer], j) {
      if j < n {
        assert StepTraced(ms, calls, answers, j);
      }
    }
  }

  lemma ProgramOpsNext(calls: seq<Call>, n: nat)
    requires n < |calls|
    ensures ProgramOps(calls[..n + 1]) == ProgramOps(calls[..n]) + CallOps(calls[n])
  {
    assert calls[..n + 1][..n] == calls[..n];
  }

  lemma {:induction false} TraceOps(ms: seq<Master>, calls: seq<Call>, n: nat, answers: seq<Word>)
    requires Traced(ms, calls, n, answers)
    ensures Did(ms[0], ProgramOps(calls[..n]), ms[n])
  {
    if n == 0 {
      DidNothing(ms[0], calls);
    } else {
      TraceOps(ms, calls, n - 1, answers);
      assert StepTraced(ms, calls, answers, n - 1);
      DidNext(ms[0], calls, n - 1, ms[n - 1], ms[n]);
    }
  }

  lemma DidNothing(m: Master, calls: seq<Call>)
    ensures Did(m, ProgramOps(calls[..0]), m)
  {
    assert calls[..0] == [];
  }

  lemma DidNext(m0: Master, calls: seq<Call>, n: nat, m: Master, m': Master)
    requires n < |calls| && Did(m0, ProgramOps(calls[..n]), m) && Did(m, CallOps(calls[n]), m')
    ensures Did(m0, ProgramOps(calls[..n + 1]), m')
  {
    ProgramOpsNext(calls, n);
    DidBoth(m0, ProgramOps(calls[..n]), m, CallOps(calls[n]), m');
  }

  lemma TraceRan(ms: seq<Master>, calls: seq<Call>, answers: seq<Word>)
    requires Traced(ms, calls, |calls|, answers) && |answers| == |calls|
    ensures RanProgram(ms[0], calls, ms[|calls|], answers)
  {
    TraceOps(ms, calls, |calls|, answers);
    assert calls[..|calls|] == calls;
    forall j | 0 <= j < |calls| ensures answers[j] == CallAnswer(RegsAfter(ms[0].regs, calls, j), calls[j]) {
      TraceOps(ms, calls, j, answers);
      assert StepTraced(ms, calls, answers, j);
    }
  }

  /**
   * Bus refinement. Whatever the program, the clocking and the slave's answer times, the bus carries out the
   * program's operations once each and in order, and every read returns what the registers hold at that
   * point of the program.
   */
  method RunProgram(bus: Uc2, calls: seq<Call>) returns (answers: seq<Word>)
    requires bus.Valid()
    modifies bus
    ensures bus.Valid() && RanProgram(old(bus.master), calls, bus.master, answers)
  {
    answers := [];
    ghost var ms := [bus.master];
    for n := 0 to |calls|
      invariant bus.Valid() && Traced(ms, calls, n, answers) && |ms| == n + 1 && |answers| == n
      invariant ms[0] == old(bus.master) && ms[n] == bus.master
    {
      var answer := PerformCall(bus, calls[n]);
      TraceExtends(ms, calls, n, answers, bus.master, answer);
      ms, answers := ms + [bus.master], answers + [answer];
    }
    TraceRan(ms, calls, answers);
  }
}
